/** Intrusive doubly linked lists with a head and a tail sentinel (lib/kernel/list.c). */
module KernelList {
  import opened Sequences
  import opened OrderedSeq

  class ListElem {
    var prev: ListElem?
    var next: ListElem?
    constructor ()
    {
      prev, next := null, null;
    }
  }

  /** s is a whole list from its head sentinel to its tail sentinel, linked both ways. */
  ghost predicate Linked(s: seq<ListElem>)
    reads s
  {
    && |s| >= 2
    && Distinct(s)
    && s[0].prev == null && s[|s| - 1].next == null
    && (forall i {:trigger s[i].next} :: 0 <= i < |s| - 1 ==> s[i].next == s[i + 1])
    && (forall i {:trigger s[i].prev} :: 1 <= i < |s| ==> s[i].prev == s[i - 1])
  }

  /** Inserts `elem` just before `before`, which is interior or the tail. */
  method Insert(before: ListElem, elem: ListElem, ghost s: seq<ListElem>, ghost k: nat)
    requires Linked(s) && 1 <= k < |s| && s[k] == before && elem !in s
    modifies s[k - 1], s[k], elem
    ensures Linked(s[..k] + [elem] + s[k..])
  {
    elem.prev := before.prev;
    elem.next := before;
    before.prev.next := elem;
    before.prev := elem;
  }

  /** Removes an interior element and returns its successor. */
  method Remove(elem: ListElem, ghost s: seq<ListElem>, ghost k: nat) returns (after: ListElem)
    requires Linked(s) && 1 <= k < |s| - 1 && s[k] == elem
    modifies s[k - 1], s[k + 1]
    ensures Linked(s[..k] + s[k + 1..]) && after == s[k + 1]
  {
    elem.prev.next := elem.next;
    elem.next.prev := elem.prev;
    after := elem.next;
  }

  /** seg is linked inside; its ends may lead anywhere. */
  ghost predicate Segment(seg: seq<ListElem>)
    reads seg
  {
    && Distinct(seg)
    && (forall x {:trigger seg[x].next} :: 0 <= x < |seg| - 1 ==> seg[x].next == seg[x + 1])
    && (forall x {:trigger seg[x].prev} :: 1 <= x < |seg| ==> seg[x].prev == seg[x - 1])
  }

  /** The first half of list_splice: the elements from first to back leave their list. */
  method Detach(first: ListElem, back: ListElem, ghost s: seq<ListElem>, ghost j: nat, ghost k: nat)
    requires Linked(s) && 1 <= j < k < |s| && s[j] == first && s[k - 1] == back
    modifies s[j - 1], s[k]
    ensures Linked(s[..j] + s[k..]) && Segment(s[j..k])
  {
    first.prev.next := back.next;
    back.next.prev := first.prev;
    ghost var rest := s[..j] + s[k..];
    forall x | 0 <= x < |rest| - 1
      ensures rest[x].next == rest[x + 1] && rest[x + 1].prev == rest[x]
    {
    }
  }

  /** The second half of list_splice: a segment goes just before `before`. */
  method Attach(before: ListElem, first: ListElem, back: ListElem, ghost t: seq<ListElem>, ghost i: nat, ghost seg: seq<ListElem>)
    requires Linked(t) && 1 <= i < |t| && t[i] == before
    requires Segment(seg) && |seg| >= 1 && seg[0] == first && seg[|seg| - 1] == back
    requires Apart(seg, t)
    modifies first, back, t[i - 1], before
    ensures Linked(t[..i] + seg + t[i..])
  {
    first.prev := before.prev;
    back.next := before;
    before.prev.next := first;
    before.prev := back;
    ghost var r := t[..i] + seg + t[i..];
    forall x | 0 <= x < |r| - 1
      ensures r[x].next == r[x + 1] && r[x + 1].prev == r[x]
    {
    }
  }

  /** The list that a block [j, k) of s goes to, without the block if it is s itself, and the place there. */
  ghost function Onto(t: seq<ListElem>, s: seq<ListElem>, j: nat, k: nat): seq<ListElem>
    requires j <= k <= |s|
  {
    if t == s then s[..j] + s[k..] else t
  }

  ghost function PlaceOnto(t: seq<ListElem>, i: nat, s: seq<ListElem>, j: nat, k: nat): nat
    requires j <= k
  {
    if t == s && k <= i then i - (k - j) else i
  }

  ghost predicate Apart(s: seq<ListElem>, t: seq<ListElem>) {
    forall x, y :: 0 <= x < |s| && 0 <= y < |t| ==> s[x] != t[y]
  }

  /** The block is apart from the list that it goes to. */
  lemma BlockApart(t: seq<ListElem>, i: nat, s: seq<ListElem>, j: nat, k: nat)
    requires Distinct(s) && j < k < |s| && i < |t| && (if t == s then i < j || k <= i else Apart(s, t))
    ensures Apart(s[j..k], Onto(t, s, j, k))
    ensures PlaceOnto(t, i, s, j, k) < |Onto(t, s, j, k)| && Onto(t, s, j, k)[PlaceOnto(t, i, s, j, k)] == t[i]
  {
    if t == s {
      var rest := s[..j] + s[k..];
      forall x, y | 0 <= x < k - j && 0 <= y < |rest|
        ensures s[j..k][x] != rest[y]
      {
        assert rest[y] == s[if y < j then y else y + (k - j)];
      }
    }
  }

  /** What comes of it, as one rearrangement of the list. */
  lemma BlockMoved(i: nat, s: seq<ListElem>, j: nat, k: nat)
    requires j <= k <= |s| && i < |s| && (i <= j || k <= i)
    ensures var onto, at := Onto(s, s, j, k), PlaceOnto(s, i, s, j, k);
            && at <= |onto|
            && (i <= j && i < k ==> onto[..at] + s[j..k] + onto[at..] == MoveBack(s, i, j, k))
            && (k <= i ==> onto[..at] + s[j..k] + onto[at..] == MoveBack(s, j, k, i))
  {
    if i <= j && i < k {
      BlockEarlier(s, i, j, k);
    }
    if k <= i {
      BlockLater(s, i, j, k);
    }
  }

  /**
   * list_splice: moves `first` up to but excluding `last` to just before `before`, in another list t or in the same list
   * s at a place outside the block.
   */
  method Splice(before: ListElem, first: ListElem, last: ListElem,
                ghost t: seq<ListElem>, ghost i: nat, ghost s: seq<ListElem>, ghost j: nat, ghost k: nat)
    requires Linked(s) && 1 <= j <= k < |s| && s[j] == first && s[k] == last
    requires Linked(t) && 1 <= i < |t| && t[i] == before
    requires if t == s then i < j || k <= i else Apart(s, t)
    modifies s[j - 1], s[j], s[k - 1], s[k], t[i - 1], t[i]
    ensures t == s && i < j ==> Linked(MoveBack(s, i, j, k))
    ensures t == s && k <= i ==> Linked(MoveBack(s, j, k, i))
    ensures t != s ==> Linked(s[..j] + s[k..]) && Linked(t[..i] + s[j..k] + t[i..])
  {
    hide Linked, Segment, MoveBack, Distinct, Onto, PlaceOnto, Apart;
    LinksAt(s, j, k);
    if first == last {
      NothingMoved(t, i, s, j);
      return;
    }
    var back := last.prev;
    BlockApart(t, i, s, j, k);
    RestApart(t, i, s, j, k);
    Detach(first, back, s, j, k);
    ghost var rest := s[..j] + s[k..];
    label detached:
    Attach(before, first, back, Onto(t, s, j, k), PlaceOnto(t, i, s, j, k), s[j..k]);
    if t == s {
      BlockMoved(i, s, j, k);
    } else {
      forall y | 0 <= y < |rest|
        ensures unchanged@detached(rest[y])
      {
        assert rest[y] in rest;
      }
      LinkedKept@detached(rest);
    }
  }

  twostate lemma LinkedKept(s: seq<ListElem>)
    requires old(Linked(s)) && forall i :: 0 <= i < |s| ==> unchanged(s[i])
    ensures Linked(s)
  {
  }

  lemma LinksAt(s: seq<ListElem>, j: nat, k: nat)
    requires Linked(s) && 1 <= j <= k < |s|
    ensures Distinct(s) && s[k].prev == s[k - 1] && (s[j] == s[k] <==> j == k)
  {
  }

  /** Splicing between two lists, neither half touches the other list. */
  lemma RestApart(t: seq<ListElem>, i: nat, s: seq<ListElem>, j: nat, k: nat)
    requires Distinct(s) && 1 <= j < k < |s| && 1 <= i < |t|
    ensures Onto(s, s, j, k) == s[..j] + s[k..] && (t != s ==> Onto(t, s, j, k) == t && PlaceOnto(t, i, s, j, k) == i)
    ensures t != s && Apart(s, t) ==> s[j - 1] !in t && s[k] !in t
    ensures t != s && Apart(s, t) ==> forall x :: x in s[..j] + s[k..] ==> x !in t && x != s[j] && x != s[k - 1]
    ensures PlaceOnto(t, i, s, j, k) >= 1 || t == s
  {
  }

  lemma NothingMoved(t: seq<ListElem>, i: nat, s: seq<ListElem>, j: nat)
    requires j <= |s| && i <= |t|
    ensures s[..j] + s[j..] == s && t[..i] + s[j..j] + t[i..] == t
    ensures i <= j ==> MoveBack(s, i, j, j) == s
    ensures j <= i <= |s| ==> MoveBack(s, j, j, i) == s
  {
  }

  type Less = (ListElem, ListElem) -> bool

  /** The elements between the two sentinels. */
  function Interior(s: seq<ListElem>): seq<ListElem>
    requires |s| >= 2
  {
    s[1..|s| - 1]
  }

  /** t is the list s with its interior stably permuted inside [lo, hi) only. */
  ghost predicate Rearranged(less: Less, s: seq<ListElem>, t: seq<ListElem>, lo: nat, hi: nat) {
    && 1 <= lo <= hi < |s| == |t|
    && t[..lo] == s[..lo] && t[hi..] == s[hi..]
    && StablePermutation(less, Interior(s), Interior(t))
  }

  lemma RearrangedElements(less: Less, s: seq<ListElem>, t: seq<ListElem>, lo: nat, hi: nat)
    requires Rearranged(less, s, t, lo, hi)
    ensures forall p :: 0 <= p < |t| ==> t[p] in s
    ensures StrictWeak(less, Interior(s)) ==> StrictWeak(less, Interior(t))
    ensures StrictWeak(less, Interior(s)) ==> StrictWeak(less, t[lo..hi])
  {
    SameElements(Interior(s), Interior(t));
    assert t == [t[0]] + Interior(t) + [t[|t| - 1]];
    assert t[0] == t[..lo][0] == s[0] && t[|t| - 1] == t[hi..][|t| - 1 - hi] == s[|t| - 1];
    assert forall x :: x in Interior(s) ==> x in s;
    forall x | x in t[lo..hi]
      ensures x in Interior(t)
    {
      var p :| 0 <= p < hi - lo && t[lo..hi][p] == x;
      assert Interior(t)[lo + p - 1] == x;
    }
  }

  lemma InteriorJump(less: Less, t: seq<ListElem>, i: nat, j: nat)
    requires 1 <= i <= j < |t| - 1 && StrictWeak(less, Interior(t))
    requires forall p :: i <= p < j ==> less(t[j], t[p])
    ensures StablePermutation(less, Interior(t), MoveBack(Interior(t), i - 1, j - 1, j)) == true
  {
    InteriorGreater(less, t, i, j);
    JumpIsStable(less, Interior(t), i - 1, j - 1);
  }

  lemma InteriorMoved(t: seq<ListElem>, i: nat, j: nat)
    requires 1 <= i <= j < |t| - 1
    ensures Interior(MoveBack(t, i, j, j + 1)) == MoveBack(Interior(t), i - 1, j - 1, j)
  {
    MoveBackInside(t, i, j, j + 1);
  }

  lemma InteriorGreater(less: Less, t: seq<ListElem>, i: nat, j: nat)
    requires 1 <= i <= j < |t| - 1 && forall p :: i <= p < j ==> less(t[j], t[p])
    ensures forall p :: i - 1 <= p < j - 1 ==> less(Interior(t)[j - 1], Interior(t)[p])
  {
    forall p | i - 1 <= p < j - 1
      ensures less(Interior(t)[j - 1], Interior(t)[p])
    {
      assert Interior(t)[p] == t[p + 1];
    }
  }

  /** One jump of the merge keeps Rearranged. */
  lemma JumpRearranges(less: Less, s: seq<ListElem>, t: seq<ListElem>, lo: nat, i: nat, j: nat, hi: nat)
    requires Rearranged(less, s, t, lo, hi) && lo <= i <= j < hi && StrictWeak(less, Interior(s))
    requires forall p :: i <= p < j ==> less(t[j], t[p])
    ensures Rearranged(less, s, MoveBack(t, i, j, j + 1), lo, hi)
  {
    var r := MoveBack(t, i, j, j + 1);
    RearrangedElements(less, s, t, lo, hi);
    InteriorJump(less, t, i, j);
    StableTransitive(less, Interior(s), Interior(t), MoveBack(Interior(t), i - 1, j - 1, j));
    InteriorMoved(t, i, j);
    MoveBackEnds(t, i, j, j + 1, lo, hi);
  }

  /** The exclusive end of the maximal nondecreasing run that starts at `start`, not past `end`. */
  method FindEndOfRun(start: ListElem, end: ListElem, less: Less, ghost s: seq<ListElem>, ghost i: nat, ghost e: nat)
    returns (a: ListElem, ghost k: nat)
    requires Linked(s) && 1 <= i < e < |s| && s[i] == start && s[e] == end
    ensures i < k <= e && s[k] == a
    ensures forall p :: i < p < k ==> !less(s[p], s[p - 1])
    ensures k < e ==> less(s[k], s[k - 1])
  {
    a, k := start.next, i + 1;
    while a != end && !less(a, a.prev)
      invariant i < k <= e && s[k] == a
      invariant forall p :: i < p < k ==> !less(s[p], s[p - 1])
      decreases e - k
    {
      a, k := a.next, k + 1;
    }
  }

  /** What the merge loop keeps: t is a stable rearrangement of s, part-way merged. */
  ghost predicate MergeInvariant(less: Less, s: seq<ListElem>, t: seq<ListElem>, lo: nat, i: nat, j: nat, hi: nat) {
    Rearranged(less, s, t, lo, hi) && Merging(less, t, lo, i, j, hi)
  }

  lemma AdvanceStep(less: Less, s: seq<ListElem>, t: seq<ListElem>, lo: nat, i: nat, j: nat, hi: nat)
    requires MergeInvariant(less, s, t, lo, i, j, hi) && i < j < hi && StrictWeak(less, Interior(s))
    requires !less(t[j], t[i])
    ensures MergeInvariant(less, s, t, lo, i + 1, j, hi)
  {
    RearrangedElements(less, s, t, lo, hi);
    MergeAdvance(less, t, lo, i, j, hi);
  }

  lemma JumpStep(less: Less, s: seq<ListElem>, t: seq<ListElem>, lo: nat, i: nat, j: nat, hi: nat)
    requires MergeInvariant(less, s, t, lo, i, j, hi) && i < j < hi && StrictWeak(less, Interior(s))
    requires less(t[j], t[i])
    ensures MergeInvariant(less, s, MoveBack(t, i, j, j + 1), lo, i + 1, j + 1, hi)
  {
    RearrangedElements(less, s, t, lo, hi);
    JumpOverGreater(less, t, lo, i, j, hi);
    MergeJump(less, t, lo, i, j, hi);
    JumpRearranges(less, s, t, lo, i, j, hi);
  }

  /** The merge loop sorts [lo, hi) by a stable permutation. */
  lemma MergedIsSorted(less: Less, s: seq<ListElem>, t: seq<ListElem>, lo: nat, i: nat, j: nat, hi: nat)
    requires MergeInvariant(less, s, t, lo, i, j, hi) && StrictWeak(less, Interior(s))
    ensures var r := Merged(less, t, i, j, hi); Rearranged(less, s, r, lo, hi) && Sorted(less, r, lo, hi)
  {
    var r, i', j' := MergeRuns(less, s, t, lo, i, j, hi);
    MergeDone(less, r, lo, i', j', hi);
  }

  /** The merge loop ends with one of the two ranges used up. The comparison with true keeps the invariant whole. */
  lemma {:induction false} MergeRuns(less: Less, s: seq<ListElem>, t: seq<ListElem>, lo: nat, i: nat, j: nat, hi: nat)
    returns (r: seq<ListElem>, i': nat, j': nat)
    requires MergeInvariant(less, s, t, lo, i, j, hi) && StrictWeak(less, Interior(s))
    ensures r == Merged(less, t, i, j, hi) && i' <= j' <= hi && (i' == j' || j' == hi)
    ensures MergeInvariant(less, s, r, lo, i', j', hi) == true
    decreases hi - i
  {
    if i == j || j == hi {
      r, i', j' := t, i, j;
    } else {
      var t', k := MergeStep(less, s, t, lo, i, j, hi);
      r, i', j' := MergeRuns(less, s, t', lo, i + 1, k, hi);
    }
  }

  /** One round of the merge loop. */
  lemma MergeStep(less: Less, s: seq<ListElem>, t: seq<ListElem>, lo: nat, i: nat, j: nat, hi: nat)
    returns (t': seq<ListElem>, k: nat)
    requires MergeInvariant(less, s, t, lo, i, j, hi) && i < j < hi && StrictWeak(less, Interior(s))
    ensures MergeInvariant(less, s, t', lo, i + 1, k, hi) == true && i + 1 <= k <= hi <= |t'|
    ensures Merged(less, t, i, j, hi) == Merged(less, t', i + 1, k, hi)
  {
    MergedStep(less, t, i, j, hi);
    if !less(t[j], t[i]) {
      AdvanceStep(less, s, t, lo, i, j, hi);
      t', k := t, j;
    } else {
      JumpStep(less, s, t, lo, i, j, hi);
      t', k := MoveBack(t, i, j, j + 1), j + 1;
    }
  }

  /** Moves `first` back to just before `before` and returns the element that followed it. */
  method JumpBack(before: ListElem, first: ListElem, ghost t: seq<ListElem>, ghost i: nat, ghost j: nat)
    returns (after: ListElem)
    requires Linked(t) && 1 <= i < j < |t| - 1 && t[i] == before && t[j] == first
    modifies t
    ensures Linked(MoveBack(t, i, j, j + 1)) && after == t[j + 1]
  {
    after := first.next;
    Splice(before, after.prev, after, t, i, t, j, j + 1);
  }

  /** Merges the adjacent ranges [lo, mid) and [mid, hi) by splicing elements of the second into the first. */
  method InplaceMerge(start: ListElem, middle: ListElem, end: ListElem, less: Less,
                      ghost s: seq<ListElem>, ghost lo: nat, ghost mid: nat, ghost hi: nat)
    returns (ghost t: seq<ListElem>)
    requires Linked(s) && 1 <= lo < mid < hi < |s|
    requires s[lo] == start && s[mid] == middle && s[hi] == end
    modifies s
    ensures Linked(t) && t == Merged(less, s, lo, mid, hi)
    ensures forall p :: 0 <= p < |t| ==> t[p] in s
  {
    var a0, a1b0 := start, middle;
    ghost var i, j := lo, mid;
    t := s;
    while a0 != a1b0 && a1b0 != end
      invariant Linked(t) && 1 <= i <= j <= hi < |t|
      invariant t[i] == a0 && t[j] == a1b0 && t[hi] == end
      invariant Merged(less, t, i, j, hi) == Merged(less, s, lo, mid, hi)
      invariant forall p :: 0 <= p < |t| ==> t[p] in s
      decreases hi - i
    {
      ghost var before := t;
      a0, a1b0, t, j := MergeRound(a0, a1b0, less, t, i, j, hi);
      assert forall p :: 0 <= p < |t| ==> t[p] in before;
      i := i + 1;
    }
  }

  /** One round of the loop of inplace_merge. */
  method MergeRound(a0: ListElem, a1b0: ListElem, less: Less, ghost t: seq<ListElem>, ghost i: nat, ghost j: nat, ghost hi: nat)
    returns (a0': ListElem, a1b0': ListElem, ghost t': seq<ListElem>, ghost j': nat)
    requires Linked(t) && 1 <= i < j < hi < |t| && t[i] == a0 && t[j] == a1b0
    modifies t
    ensures Linked(t') && |t'| == |t| && i + 1 <= j' <= hi && t'[hi] == t[hi]
    ensures t'[i + 1] == a0' && t'[j'] == a1b0'
    ensures Merged(less, t', i + 1, j', hi) == Merged(less, t, i, j, hi)
    ensures forall p :: 0 <= p < |t'| ==> t'[p] in t
  {
    MergedStep(less, t, i, j, hi);
    if !less(a1b0, a0) {
      a0', a1b0', t', j' := a0.next, a1b0, t, j;
    } else {
      a1b0' := JumpBack(a0, a1b0, t, i, j);
      JumpPositions(t, i, j, hi, t);
      a0', t', j' := a0, MoveBack(t, i, j, j + 1), j + 1;
    }
  }

  /** What one pass over the list keeps: t[1..i] is output, made of at most cnt runs; t[i..] is still the input,
      two runs of which went into each run of the output. */
  ghost predicate PassInvariant(less: Less, s: seq<ListElem>, t: seq<ListElem>, i: nat, cnt: nat) {
    && 1 <= i < |s| == |t|
    && t[0] == s[0] && t[i..] == s[i..]
    && StablePermutation(less, Interior(s), Interior(t))
    && 2 * cnt + Runs(less, s[i..|s| - 1]) == Runs(less, Interior(s))
    && Runs(less, t[1..i]) <= cnt
  }

  /** [lo, hi) of t is a maximal run of the interior. */
  ghost predicate MaximalRun(less: Less, t: seq<ListElem>, lo: nat, hi: nat) {
    && 1 <= lo < hi < |t|
    && (forall p :: lo < p < hi ==> !less(t[p], t[p - 1]))
    && (hi < |t| - 1 ==> less(t[hi], t[hi - 1]))
  }

  lemma FirstRun(less: Less, t: seq<ListElem>, lo: nat, hi: nat)
    requires MaximalRun(less, t, lo, hi)
    ensures Runs(less, t[lo..|t| - 1]) == 1 + Runs(less, t[hi..|t| - 1])
  {
    var a, b := t[lo..hi], t[hi..|t| - 1];
    SortedIsOneRun(less, a);
    assert t[lo..|t| - 1] == a + b;
    if b != [] {
      RunsConcat(less, a, b);
    } else {
      assert a + b == a;
    }
  }

  lemma RunsAppendSorted(less: Less, t: seq<ListElem>, i: nat, k: nat)
    requires 1 <= i < k <= |t| && forall p :: i < p < k ==> !less(t[p], t[p - 1])
    ensures Runs(less, t[1..k]) <= Runs(less, t[1..i]) + 1
  {
    var a, b := t[1..i], t[i..k];
    SortedIsOneRun(less, b);
    assert t[1..k] == a + b;
    if a != [] {
      RunsConcat(less, a, b);
    } else {
      assert a + b == b;
    }
  }

  lemma PassMerge(less: Less, s: seq<ListElem>, t: seq<ListElem>, i: nat, j: nat, k: nat)
    requires 1 <= i < |s| == |t| && StrictWeak(less, Interior(s))
    requires t[i..] == s[i..] && StablePermutation(less, Interior(s), Interior(t))
    requires MaximalRun(less, t, i, j) && MaximalRun(less, t, j, k)
    ensures var r := Merged(less, t, i, j, k);
            Rearranged(less, t, r, i, k) && Sorted(less, r, i, k) &&
            StablePermutation(less, Interior(s), Interior(r))
  {
    SameElements(Interior(s), Interior(t));
    StrictWeakPart(less, Interior(s), Interior(t));
    assert forall p :: i <= p < k ==> t[p] == Interior(t)[p - 1];
    assert forall x :: x in t[i..j] ==> x in Interior(t);
    assert forall x :: x in t[j..k] ==> x in Interior(t);
    StrictWeakPart(less, Interior(t), t[i..j]);
    StrictWeakPart(less, Interior(t), t[j..k]);
    AdjacentIsSorted(less, t, i, j);
    AdjacentIsSorted(less, t, j, k);
    MergedIsSorted(less, t, t, i, i, j, k);
    StableTransitive(less, Interior(s), Interior(t), Interior(Merged(less, t, i, j, k)));
  }

  lemma SuffixInside(s: seq<ListElem>, t: seq<ListElem>, i: nat, k: nat)
    requires |s| == |t| && i <= k < |t| && t[i..] == s[i..]
    ensures t[k..] == s[k..] && t[k..|t| - 1] == s[k..|s| - 1]
  {
    forall p | i <= p < |t| ensures t[p] == s[p] {
      assert t[i..][p - i] == s[i..][p - i];
    }
  }

  lemma PassStep(less: Less, s: seq<ListElem>, t: seq<ListElem>, i: nat, j: nat, k: nat, cnt: nat)
    requires PassInvariant(less, s, t, i, cnt) && StrictWeak(less, Interior(s))
    requires MaximalRun(less, t, i, j) && MaximalRun(less, t, j, k)
    ensures PassInvariant(less, s, Merged(less, t, i, j, k), k, cnt + 1)
  {
    var r := Merged(less, t, i, j, k);
    PassMerge(less, s, t, i, j, k);
    SuffixInside(s, t, i, i);
    SuffixInside(s, t, i, k);
    FirstRun(less, t, i, j);
    FirstRun(less, t, j, k);
    assert r[1..i] == t[1..i] by { assert r[..i][1..] == t[..i][1..]; }
    RunsAppendSorted(less, r, i, k);
    assert r[0] == r[..i][0] == t[..i][0];
  }

  /** A pass that stops with one last run, or with none, has halved the number of runs. */
  lemma PassEnd(less: Less, s: seq<ListElem>, t: seq<ListElem>, i: nat, cnt: nat)
    requires PassInvariant(less, s, t, i, cnt)
    requires i == |t| - 1 || MaximalRun(less, t, i, |t| - 1)
    ensures var cnt' := if i == |t| - 1 then cnt else cnt + 1;
            cnt' == (Runs(less, Interior(s)) + 1) / 2 && Runs(less, Interior(t)) <= cnt'
  {
    assert t[i..|t| - 1] == s[i..|s| - 1] by { assert t[i..][..|t| - 1 - i] == s[i..][..|t| - 1 - i]; }
    if i < |t| - 1 {
      FirstRun(less, t, i, |t| - 1);
      RunsAppendSorted(less, t, i, |t| - 1);
    }
  }

  /** Merges the two runs that start at `a0`, unless only one is left; returns where the next pair starts. */
  method MergeTwoRuns(a0: ListElem, tail: ListElem, less: Less, ghost t: seq<ListElem>, ghost i: nat)
    returns (b1: ListElem, single: bool, ghost r: seq<ListElem>, ghost j: nat, ghost k: nat)
    requires Linked(t) && 1 <= i < |t| - 1 && t[i] == a0 && t[|t| - 1] == tail
    modifies t
    ensures Linked(r) && i < j <= k < |t| && MaximalRun(less, t, i, j)
    ensures forall p :: 0 <= p < |r| ==> r[p] in t
    ensures single ==> r == t && j == |t| - 1
    ensures !single ==> MaximalRun(less, t, j, k) && r == Merged(less, t, i, j, k) && b1 == t[k]
  {
    var a1b0;
    a1b0, j := FindEndOfRun(a0, tail, less, t, i, |t| - 1);
    single := a1b0 == tail;
    if single {
      b1, r, k := tail, t, j;
    } else {
      b1, k := FindEndOfRun(a1b0, tail, less, t, j, |t| - 1);
      r := InplaceMerge(a0, a1b0, b1, less, t, i, j, k);
    }
  }

  /** One pass of the natural merge sort: merges runs two by two and counts the runs it puts out. */
  method SortPass(head: ListElem, tail: ListElem, less: Less, ghost s: seq<ListElem>)
    returns (cnt: nat, ghost t: seq<ListElem>)
    requires Linked(s) && s[0] == head && s[|s| - 1] == tail && StrictWeak(less, Interior(s))
    modifies s
    ensures Linked(t) && |t| == |s| && t[0] == head && t[|t| - 1] == tail
    ensures forall p :: 0 <= p < |t| ==> t[p] in s
    ensures StablePermutation(less, Interior(s), Interior(t))
    ensures cnt == (Runs(less, Interior(s)) + 1) / 2 && Runs(less, Interior(t)) <= cnt
  {
    var a0, single := head.next, false;
    ghost var i, j, k := 1, 1, 1;
    ghost var r;
    cnt, t := 0, s;
    while a0 != tail
      invariant Linked(t) && PassInvariant(less, s, t, i, cnt) && t[i] == a0 && t[|t| - 1] == tail
      invariant forall p :: 0 <= p < |t| ==> t[p] in s
      decreases |t| - i
    {
      a0, single, r, j, k := MergeTwoRuns(a0, tail, less, t, i);
      if single {
        PassEnd(less, s, t, i, cnt);
        cnt := cnt + 1;
        return;
      }
      PassStep(less, s, t, i, j, k, cnt);
      assert r[k] == r[k..][0] == s[k..][0] && t[k] == t[i..][k - i] == s[i..][k - i];
      t, i, cnt := r, k, cnt + 1;
    }
    PassEnd(less, s, t, i, cnt);
  }

  lemma {:induction false} OneRunIsSorted(less: Less, s: seq<ListElem>)
    requires Runs(less, s) <= 1
    ensures forall p :: 0 < p < |s| ==> !less(s[p], s[p - 1])
  {
    if |s| > 1 {
      RunsPositive(less, s[1..]);
      OneRunIsSorted(less, s[1..]);
      forall p | 0 < p < |s|
        ensures !less(s[p], s[p - 1])
      {
        if p > 1 {
          assert s[p] == s[1..][p - 1] && s[p - 1] == s[1..][p - 2];
        }
      }
    }
  }

  lemma {:induction false} RunsPositive(less: Less, s: seq<ListElem>)
    requires s != []
    ensures 1 <= Runs(less, s) <= |s|
  {
    if |s| > 1 {
      RunsPositive(less, s[1..]);
    }
  }

  lemma SortedInterior(less: Less, s: seq<ListElem>, t: seq<ListElem>)
    requires |s| == |t| >= 2 && StrictWeak(less, Interior(s)) && StablePermutation(less, Interior(s), Interior(t))
    requires Runs(less, Interior(t)) <= 1
    ensures Sorted(less, Interior(t), 0, |t| - 2)
  {
    OneRunIsSorted(less, Interior(t));
    SameElements(Interior(s), Interior(t));
    StrictWeakPart(less, Interior(s), Interior(t));
    if |t| > 2 {
      assert Interior(t)[0..|t| - 2] == Interior(t);
      AdjacentIsSorted(less, Interior(t), 0, |t| - 2);
    }
  }

  /** Natural merge sort. It ends because a pass takes r runs to at most (r + 1) / 2. */
  method Sort(head: ListElem, tail: ListElem, less: Less, ghost s: seq<ListElem>) returns (ghost t: seq<ListElem>)
    requires Linked(s) && s[0] == head && s[|s| - 1] == tail && StrictWeak(less, Interior(s))
    modifies s
    ensures Linked(t) && |t| == |s| && t[0] == head && t[|t| - 1] == tail
    ensures Sorted(less, Interior(t), 0, |t| - 2)
    ensures StablePermutation(less, Interior(s), Interior(t))
  {
    var outputRunCnt;
    outputRunCnt, t := SortPass(head, tail, less, s);
    while outputRunCnt > 1
      invariant Linked(t) && |t| == |s| && t[0] == head && t[|t| - 1] == tail
      invariant forall p :: 0 <= p < |t| ==> t[p] in s
      invariant StablePermutation(less, Interior(s), Interior(t))
      invariant Runs(less, Interior(t)) <= outputRunCnt
      decreases outputRunCnt
    {
      StableOrder(less, s, t);
      ghost var u := t;
      outputRunCnt, t := SortPass(head, tail, less, u);
      StableTransitive(less, Interior(s), Interior(u), Interior(t));
    }
    SortedInterior(less, s, t);
  }

  lemma StableOrder(less: Less, s: seq<ListElem>, t: seq<ListElem>)
    requires |s| == |t| >= 2 && StrictWeak(less, Interior(s)) && StablePermutation(less, Interior(s), Interior(t))
    ensures StrictWeak(less, Interior(t))
  {
    SameElements(Interior(s), Interior(t));
    StrictWeakPart(less, Interior(s), Interior(t));
  }

  /** s with its interior in the opposite order. */
  function Mirror(s: seq<ListElem>): (r: seq<ListElem>)
    requires |s| >= 2
    ensures |r| == |s|
  {
    seq(|s|, p requires 0 <= p < |s| => if p == 0 || p == |s| - 1 then s[p] else s[|s| - 1 - p])
  }

  /** The links once every interior element has its two links swapped and the sentinels are exchanged. */
  ghost predicate Turned(s: seq<ListElem>)
    requires |s| >= 3
    reads s
  {
    var n := |s| - 1;
    && s[0].prev == null && s[n].next == null
    && s[0].next == s[n - 1] && s[n].prev == s[1]
    && s[n - 1].prev == s[0] && s[1].next == s[n]
    && (forall p {:trigger s[p].prev} :: 1 <= p < n - 1 ==> s[p].prev == s[p + 1])
    && (forall p {:trigger s[p].next} :: 1 < p <= n - 1 ==> s[p].next == s[p - 1])
  }

  lemma TurnedIsMirrored(s: seq<ListElem>)
    requires |s| >= 3 && Distinct(s) && Turned(s)
    ensures Linked(Mirror(s))
  {
  }

  /** Reverses the list in place. */
  method Reverse(head: ListElem, tail: ListElem, ghost s: seq<ListElem>)
    requires Linked(s) && s[0] == head && s[|s| - 1] == tail
    modifies s
    ensures Linked(Mirror(s)) && (|s| >= 3 ==> Turned(s))
  {
    if head.next == tail {
      assert |s| == 2;
      assert Mirror(s) == s;
      return;
    }
    var e := head.next;
    ghost var i := 1;
    ghost var n := |s| - 1;
    while e != tail
      invariant 1 <= i <= n && s[i] == e
      invariant s[0].prev == null && s[n].next == null && s[0].next == s[1] && s[n].prev == s[n - 1]
      invariant forall p {:trigger s[p].prev} :: 1 <= p < n ==> s[p].prev == if p < i then s[p + 1] else s[p - 1]
      invariant forall p {:trigger s[p].next} :: 1 <= p < n ==> s[p].next == if p < i then s[p - 1] else s[p + 1]
      decreases n - i
    {
      e.prev, e.next := e.next, e.prev;
      e, i := e.prev, i + 1;
    }
    head.next, tail.prev := tail.prev, head.next;
    var first, last := head.next, tail.prev;
    if first == last {
      first.prev, first.next := first.next, first.prev;
    } else {
      first.prev, last.next := last.next, first.prev;
    }
    TurnedIsMirrored(s);
  }

  /** Inserts `elem` after everything not greater than it. */
  method InsertOrdered(head: ListElem, tail: ListElem, elem: ListElem, less: Less, ghost s: seq<ListElem>)
    returns (ghost k: nat)
    requires Linked(s) && s[0] == head && s[|s| - 1] == tail && elem !in s
    requires StrictWeak(less, Interior(s) + [elem]) && Sorted(less, Interior(s), 0, |s| - 2)
    modifies s, elem
    ensures 1 <= k < |s| && Linked(s[..k] + [elem] + s[k..])
    ensures var t := Interior(s)[..k - 1] + [elem] + Interior(s)[k - 1..];
            Interior(s[..k] + [elem] + s[k..]) == t && Sorted(less, t, 0, |t|)
    ensures forall p :: k <= p < |s| - 1 ==> less(elem, s[p])
  {
    var e := head.next;
    k := 1;
    while e != tail && !less(elem, e)
      invariant 1 <= k < |s| && s[k] == e
      invariant forall p :: 1 <= p < k ==> !less(elem, s[p])
      decreases |s| - k
    {
      e, k := e.next, k + 1;
    }
    InsertedInOrder(less, s, elem, k);
    Insert(e, elem, s, k);
  }

  lemma InsertedInOrder(less: Less, s: seq<ListElem>, elem: ListElem, k: nat)
    requires 1 <= k < |s| && StrictWeak(less, Interior(s) + [elem]) && Sorted(less, Interior(s), 0, |s| - 2)
    requires forall p :: 1 <= p < k ==> !less(elem, s[p])
    requires k < |s| - 1 ==> less(elem, s[k])
    ensures var t := Interior(s)[..k - 1] + [elem] + Interior(s)[k - 1..];
            Interior(s[..k] + [elem] + s[k..]) == t && Sorted(less, t, 0, |t|)
    ensures forall p :: k <= p < |s| - 1 ==> less(elem, s[p])
  {
    assert forall p :: 0 <= p < |s| - 2 ==> Interior(s)[p] == s[p + 1];
    OrderedInsertion(less, Interior(s), elem, k - 1);
    InteriorInsert(s, elem, k);
    forall p | k <= p < |s| - 1 ensures less(elem, s[p]) {
      assert s[p] == Interior(s)[p - 1] && less(elem, Interior(s)[p - 1]);
    }
  }

  lemma InteriorInsert(s: seq<ListElem>, elem: ListElem, k: nat)
    requires 1 <= k < |s|
    ensures Interior(s[..k] + [elem] + s[k..]) == Interior(s)[..k - 1] + [elem] + Interior(s)[k - 1..]
  {
    var n := |s| - 1;
    assert s[..k][1..] == Interior(s)[..k - 1] && s[k..][..n - k] == Interior(s)[k - 1..];
    assert s[..k] + [elem] + s[k..] == [s[0]] + s[..k][1..] + [elem] + s[k..][..n - k] + [s[n]];
  }
}
