/** Sequences under a strict weak order: sortedness, stability and natural runs. */
module OrderedSeq {
  import opened Sequences

  /** What `less` must satisfy on the elements of s for sorting to make sense. */
  ghost predicate StrictWeak<T>(less: (T, T) -> bool, s: seq<T>) {
    && (forall x, y {:trigger less(x, y)} :: x in s && y in s && less(x, y) ==> !less(y, x))
    && (forall x, y, z {:trigger less(x, y), less(y, z)} :: x in s && y in s && z in s && !less(x, y) && !less(y, z) ==> !less(x, z))
  }

  /** t[lo..hi] is nondecreasing. */
  ghost predicate Sorted<T>(less: (T, T) -> bool, t: seq<T>, lo: int, hi: int)
    requires 0 <= lo && hi <= |t|
  {
    forall p, q :: lo <= p < q < hi ==> !less(t[q], t[p])
  }

  /** The elements of s equivalent to x, in order. */
  ghost function Peers<T>(less: (T, T) -> bool, s: seq<T>, x: T): seq<T> {
    if s == [] then []
    else (if !less(s[0], x) && !less(x, s[0]) then [s[0]] else []) + Peers(less, s[1..], x)
  }

  /** t is a permutation of s that keeps equivalent elements in order. */
  ghost predicate StablePermutation<T>(less: (T, T) -> bool, s: seq<T>, t: seq<T>) {
    && |s| == |t|
    && multiset(s) == multiset(t)
    && forall x :: x in s ==> Peers(less, t, x) == Peers(less, s, x)
  }

  lemma SameElements<T>(s: seq<T>, t: seq<T>)
    requires multiset(s) == multiset(t)
    ensures forall x :: x in s <==> x in t
  {
    forall x
      ensures x in s <==> x in t
    {
      assert x in s <==> x in multiset(s);
      assert x in t <==> x in multiset(t);
    }
  }

  lemma StableTransitive<T>(less: (T, T) -> bool, s: seq<T>, t: seq<T>, u: seq<T>)
    requires StablePermutation(less, s, t) && StablePermutation(less, t, u)
    ensures StablePermutation(less, s, u)
  {
    SameElements(s, t);
  }

  lemma {:induction false} PeersConcat<T>(less: (T, T) -> bool, s: seq<T>, t: seq<T>, x: T)
    ensures Peers(less, s + t, x) == Peers(less, s, x) + Peers(less, t, x)
  {
    if s == [] {
      assert s + t == t;
    } else {
      assert (s + t)[1..] == s[1..] + t;
      PeersConcat(less, s[1..], t, x);
    }
  }

  lemma {:induction false} NoPeers<T>(less: (T, T) -> bool, s: seq<T>, x: T)
    requires forall p :: 0 <= p < |s| ==> less(s[p], x) || less(x, s[p])
    ensures Peers(less, s, x) == []
  {
    if s != [] {
      NoPeers(less, s[1..], x);
    }
  }

  /** Moving one element back over strictly greater ones is a stable permutation. */
  lemma JumpIsStable<T>(less: (T, T) -> bool, s: seq<T>, i: nat, j: nat)
    requires i <= j < |s| && StrictWeak(less, s)
    requires forall p :: i <= p < j ==> less(s[j], s[p])
    ensures StablePermutation(less, s, MoveBack(s, i, j, j + 1))
  {
    var a, m, b, c := s[..i], s[i..j], s[j..j + 1], s[j + 1..];
    assert s == a + (m + b) + c;
    MoveBackParts(s, i, j, j + 1);
    assert MoveBack(s, i, j, j + 1) == a + (b + m) + c;
    forall x | x in s
      ensures Peers(less, a + (b + m) + c, x) == Peers(less, a + (m + b) + c, x)
    {
      PeersConcat(less, a + (b + m), c, x);
      PeersConcat(less, a, b + m, x);
      PeersConcat(less, b, m, x);
      PeersConcat(less, a + (m + b), c, x);
      PeersConcat(less, a, m + b, x);
      PeersConcat(less, m, b, x);
      JumpPeers(less, s, i, j, x);
    }
  }

  lemma JumpPeers<T>(less: (T, T) -> bool, s: seq<T>, i: nat, j: nat, x: T)
    requires i <= j < |s| && StrictWeak(less, s) && x in s
    requires forall p :: i <= p < j ==> less(s[j], s[p])
    ensures var m, b := s[i..j], s[j..j + 1];
            Peers(less, b, x) + Peers(less, m, x) == Peers(less, m, x) + Peers(less, b, x)
  {
    var m, b := s[i..j], s[j..j + 1];
    if !less(s[j], x) && !less(x, s[j]) {
      forall p | 0 <= p < |m|
        ensures less(m[p], x) || less(x, m[p])
      {
        assert m[p] == s[i + p];
        assert less(s[j], m[p]);
      }
      NoPeers(less, m, x);
    } else {
      assert b[0] == s[j];
      NoPeers(less, b, x);
    }
  }

  /** The number of maximal nondecreasing runs. */
  ghost function Runs<T>(less: (T, T) -> bool, s: seq<T>): nat {
    if |s| <= 1 then |s|
    else Runs(less, s[1..]) + (if less(s[1], s[0]) then 1 else 0)
  }

  lemma {:induction false} RunsConcat<T>(less: (T, T) -> bool, s: seq<T>, t: seq<T>)
    requires s != [] && t != []
    ensures Runs(less, s + t) == Runs(less, s) + Runs(less, t) - (if less(t[0], s[|s| - 1]) then 0 else 1)
  {
    assert (s + t)[1..] == s[1..] + t;
    if |s| > 1 {
      RunsConcat(less, s[1..], t);
    } else {
      assert s[1..] + t == t;
    }
  }

  lemma {:induction false} SortedIsOneRun<T>(less: (T, T) -> bool, s: seq<T>)
    requires s != [] && forall p :: 0 < p < |s| ==> !less(s[p], s[p - 1])
    ensures Runs(less, s) == 1
  {
    if |s| > 1 {
      forall p | 0 < p < |s[1..]|
        ensures !less(s[1..][p], s[1..][p - 1])
      {
        assert s[1..][p] == s[p + 1] && s[1..][p - 1] == s[p];
      }
      SortedIsOneRun(less, s[1..]);
    }
  }

  lemma AdjacentIsSorted<T>(less: (T, T) -> bool, t: seq<T>, lo: nat, hi: nat)
    requires lo < hi <= |t| && StrictWeak(less, t[lo..hi])
    requires forall p :: lo < p < hi ==> !less(t[p], t[p - 1])
    ensures Sorted(less, t, lo, hi)
  {
    forall p, q | lo <= p < q < hi
      ensures !less(t[q], t[p])
    {
      AdjacentReaches(less, t, lo, hi, p, q);
    }
  }

  lemma {:induction false} AdjacentReaches<T>(less: (T, T) -> bool, t: seq<T>, lo: nat, hi: nat, p: nat, q: nat)
    requires lo <= p < q < hi <= |t| && StrictWeak(less, t[lo..hi])
    requires forall r :: lo < r < hi ==> !less(t[r], t[r - 1])
    ensures !less(t[q], t[p])
    decreases q
  {
    if p + 1 < q {
      AdjacentReaches(less, t, lo, hi, p, q - 1);
      assert t[q] == t[lo..hi][q - lo] && t[q - 1] == t[lo..hi][q - 1 - lo] && t[p] == t[lo..hi][p - lo];
    }
  }

  /** Merging in place: [lo, i) is merged, [i, j) is left of the first run, [j, hi) of the second. */
  ghost predicate Merging<T>(less: (T, T) -> bool, t: seq<T>, lo: nat, i: nat, j: nat, hi: nat) {
    && lo <= i <= j <= hi <= |t|
    && Sorted(less, t, lo, j)
    && Sorted(less, t, j, hi)
    && forall p, q :: lo <= p < i && j <= q < hi ==> !less(t[q], t[p])
  }

  lemma MergeAdvance<T>(less: (T, T) -> bool, t: seq<T>, lo: nat, i: nat, j: nat, hi: nat)
    requires Merging(less, t, lo, i, j, hi) && i < j < hi && StrictWeak(less, t[lo..hi])
    requires !less(t[j], t[i])
    ensures Merging(less, t, lo, i + 1, j, hi)
  {
    forall q | j <= q < hi
      ensures !less(t[q], t[i])
    {
      assert t[q] == t[lo..hi][q - lo] && t[i] == t[lo..hi][i - lo] && t[j] == t[lo..hi][j - lo];
    }
  }

  lemma JumpOverGreater<T>(less: (T, T) -> bool, t: seq<T>, lo: nat, i: nat, j: nat, hi: nat)
    requires Merging(less, t, lo, i, j, hi) && i < j < hi && StrictWeak(less, t[lo..hi])
    requires less(t[j], t[i])
    ensures forall p :: i <= p < j ==> less(t[j], t[p])
  {
    forall p | i <= p < j
      ensures less(t[j], t[p])
    {
      assert t[p] == t[lo..hi][p - lo] && t[i] == t[lo..hi][i - lo] && t[j] == t[lo..hi][j - lo];
    }
  }

  lemma MergeJump<T>(less: (T, T) -> bool, t: seq<T>, lo: nat, i: nat, j: nat, hi: nat)
    requires Merging(less, t, lo, i, j, hi) && i < j < hi && StrictWeak(less, t[lo..hi])
    requires less(t[j], t[i])
    ensures Merging(less, MoveBack(t, i, j, j + 1), lo, i + 1, j + 1, hi)
  {
    var r := MoveBack(t, i, j, j + 1);
    JumpOverGreater(less, t, lo, i, j, hi);
    forall p, q | lo <= p < q < hi && (q < j + 1 || p >= j + 1 || p < i + 1)
      ensures !less(r[q], r[p])
    {
      assert t[j] == t[lo..hi][j - lo];
      if i <= q - 1 < j {
        assert t[q - 1] == t[lo..hi][q - 1 - lo];
      }
    }
  }

  lemma MergeDone<T>(less: (T, T) -> bool, t: seq<T>, lo: nat, i: nat, j: nat, hi: nat)
    requires Merging(less, t, lo, i, j, hi) && (i == j || j == hi)
    ensures Sorted(less, t, lo, hi)
  {
    forall p, q | lo <= p < q < hi
      ensures !less(t[q], t[p])
    {
      if q >= j && p < j {
        assert p < i;
      }
    }
  }

  lemma StrictWeakPart<T>(less: (T, T) -> bool, s: seq<T>, t: seq<T>)
    requires StrictWeak(less, s) && forall x :: x in t ==> x in s
    ensures StrictWeak(less, t)
  {
  }

  /** The merge loop on values: an element of the second run jumps back, or the first run advances. */
  ghost function Merged<T>(less: (T, T) -> bool, t: seq<T>, i: nat, j: nat, hi: nat): (r: seq<T>)
    requires i <= j <= hi <= |t|
    ensures |r| == |t|
    decreases hi - i
  {
    if i == j || j == hi then t
    else if !less(t[j], t[i]) then Merged(less, t, i + 1, j, hi)
    else Merged(less, MoveBack(t, i, j, j + 1), i + 1, j + 1, hi)
  }

  lemma MergedStep<T>(less: (T, T) -> bool, t: seq<T>, i: nat, j: nat, hi: nat)
    requires i < j < hi <= |t|
    ensures !less(t[j], t[i]) ==> Merged(less, t, i, j, hi) == Merged(less, t, i + 1, j, hi)
    ensures less(t[j], t[i]) ==> Merged(less, t, i, j, hi) == Merged(less, MoveBack(t, i, j, j + 1), i + 1, j + 1, hi)
  {
  }

  lemma OrderedInsertion<T>(less: (T, T) -> bool, s: seq<T>, x: T, k: nat)
    requires k <= |s| && StrictWeak(less, s + [x]) && Sorted(less, s, 0, |s|)
    requires forall p :: 0 <= p < k ==> !less(x, s[p])
    requires k < |s| ==> less(x, s[k])
    ensures var t := s[..k] + [x] + s[k..]; Sorted(less, t, 0, |t|)
    ensures forall p :: k <= p < |s| ==> less(x, s[p])
  {
    assert x == (s + [x])[|s|];
    forall p | k <= p < |s|
      ensures less(x, s[p]) && !less(s[p], x)
    {
      assert s[p] == (s + [x])[p] && s[k] == (s + [x])[k];
    }
  }
}
