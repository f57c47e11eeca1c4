/** The resizing hash table (lib/kernel/hash.c): chained buckets, rehashing and iteration. */
module HashTable {
  import opened Wrappers
  import opened Division

  // ---- bit tricks ----

  /** Bitwise and. */
  function And(x: nat, y: nat): nat {
    if x == 0 || y == 0 then 0 else 2 * And(x / 2, y / 2) + if x % 2 == 1 && y % 2 == 1 then 1 else 0
  }

  function TurnOffLeast1Bit(x: nat): nat
    requires x > 0
  {
    And(x, x - 1)
  }

  predicate IsPowerOf2(x: nat) {
    x != 0 && TurnOffLeast1Bit(x) == 0
  }

  ghost predicate PowerOf2(x: nat) {
    exists k: nat :: Pow2(k) == x
  }

  lemma {:induction false} AndSelf(x: nat)
    ensures And(x, x) == x
  {
    if x > 0 {
      AndSelf(x / 2);
    }
  }

  lemma TurnOffStep(x: nat)
    requires x > 0
    ensures TurnOffLeast1Bit(x) == if x % 2 == 1 then x - 1 else 2 * TurnOffLeast1Bit(x / 2)
  {
    var h := x / 2;
    if x % 2 == 1 {
      assert (x - 1) / 2 == h && (x - 1) % 2 == 0;
      assert And(x, x - 1) == 2 * And(h, h);
      AndSelf(h);
    } else {
      assert (x - 1) / 2 == h - 1 && (x - 1) % 2 == 1;
      assert And(x, x - 1) == 2 * And(h, h - 1);
    }
  }

  /** The test in the code decides what its name says. */
  lemma {:induction false} IsPowerOf2Correct(x: nat)
    ensures IsPowerOf2(x) <==> PowerOf2(x)
  {
    if x == 0 {
    } else {
      TurnOffStep(x);
      if x == 1 {
        assert Pow2(0) == 1;
      } else if x % 2 == 1 {
        OddIsNoPower(x);
      } else {
        IsPowerOf2Correct(x / 2);
        HalvePower(x);
      }
    }
  }

  lemma OddIsNoPower(x: nat)
    requires x > 1 && x % 2 == 1
    ensures !PowerOf2(x)
  {
    forall k: nat | Pow2(k) == x ensures false {
    }
  }

  lemma HalvePower(x: nat)
    requires x > 1 && x % 2 == 0
    ensures PowerOf2(x) <==> PowerOf2(x / 2)
  {
    if PowerOf2(x) {
      var k: nat :| Pow2(k) == x;
      assert Pow2(k - 1) == x / 2;
    }
    if PowerOf2(x / 2) {
      var k: nat :| Pow2(k) == x / 2;
      assert Pow2(k + 1) == x;
    }
  }

  /** Turning off a bit of a number that is no power of two leaves it above the same powers of two. */
  lemma {:induction false} TurnOffKeepsTop(x: nat, k: nat)
    requires x > 0 && !IsPowerOf2(x)
    ensures 0 < TurnOffLeast1Bit(x) < x
    ensures Pow2(k) <= x <==> Pow2(k) <= TurnOffLeast1Bit(x)
  {
    TurnOffStep(x);
    if x % 2 == 1 {
      IsPowerOf2Correct(x);
      assert k > 0 ==> Pow2(k) % 2 == 0;
      assert Pow2(0) == 1;
    } else {
      TurnOffKeepsTop(x / 2, if k == 0 then 0 else k - 1);
    }
  }

  /** Masking with a power of two less one is the remainder. */
  lemma {:induction false} MaskIsRemainder(h: nat, k: nat)
    ensures And(h, Pow2(k) - 1) == h % Pow2(k)
  {
    if k > 0 && h > 0 {
      MaskIsRemainder(h / 2, k - 1);
      MaskStep(h, Pow2(k - 1));
      RemainderStep(h, Pow2(k - 1));
    } else {
      Remainder(0, Pow2(k), 0, 0);
    }
  }

  lemma MaskStep(h: nat, p: nat)
    requires p > 0 && h > 0
    ensures And(h, 2 * p - 1) == 2 * And(h / 2, p - 1) + h % 2
  {
    assert (2 * p - 1) / 2 == p - 1 && (2 * p - 1) % 2 == 1;
  }

  lemma RemainderStep(h: nat, p: nat)
    requires p > 0
    ensures h % (2 * p) == 2 * ((h / 2) % p) + h % 2
  {
    var q, r := (h / 2) / p, (h / 2) % p;
    assert h / 2 == p * q + r;
    assert h == (2 * p) * q + (2 * r + h % 2);
    Remainder(h, 2 * p, q, 2 * r + h % 2);
  }

  lemma Remainder(x: nat, d: nat, q: nat, r: nat)
    requires r < d && x == d * q + r
    ensures x % d == r
  {
    MultipleGap(d, q - x / d, x % d - r);
  }

  lemma MultipleGap(d: int, m: int, gap: int)
    requires d * m == gap && -d < gap < d
    ensures gap == 0
  {
    assert m >= 1 ==> d * (m - 1) >= 0;
    assert m <= -1 ==> d * (-m - 1) >= 0;
  }

  /** The bucket of a hash value among cnt buckets. */
  function BucketIndex(h: nat, cnt: nat): nat
    requires cnt > 0
  {
    And(h, cnt - 1)
  }

  lemma BucketInRange(h: nat, cnt: nat)
    requires PowerOf2(cnt)
    ensures BucketIndex(h, cnt) == h % cnt < cnt
  {
    var k: nat :| Pow2(k) == cnt;
    MaskIsRemainder(h, k);
  }

  // ---- elements in buckets ----

  /** All elements, with multiplicity. */
  ghost function All<E>(buckets: seq<seq<E>>): multiset<E> {
    if buckets == [] then multiset{} else All(buckets[..|buckets| - 1]) + multiset(buckets[|buckets| - 1])
  }

  /** Replacing one bucket exchanges its elements. */
  lemma {:induction false} AllUpdate<E>(buckets: seq<seq<E>>, i: nat, b: seq<E>)
    requires i < |buckets|
    ensures multiset(buckets[i]) <= All(buckets)
    ensures All(buckets[i := b]) == All(buckets) - multiset(buckets[i]) + multiset(b)
  {
    var n := |buckets| - 1;
    if i == n {
      assert buckets[i := b][..n] == buckets[..n];
    } else {
      AllUpdate(buckets[..n], i, b);
      assert buckets[i := b][..n] == buckets[..n][i := b];
    }
  }

  lemma {:induction false} InAll<E>(buckets: seq<seq<E>>, e: E)
    ensures e in All(buckets) <==> exists i :: 0 <= i < |buckets| && e in buckets[i]
  {
    if buckets != [] {
      var n := |buckets| - 1;
      InAll(buckets[..n], e);
      assert forall i :: 0 <= i < n ==> buckets[..n][i] == buckets[i];
    }
  }

  lemma {:induction false} AllEmpty<E>(buckets: seq<seq<E>>)
    requires forall i :: 0 <= i < |buckets| ==> buckets[i] == []
    ensures All(buckets) == multiset{}
  {
    if buckets != [] {
      AllEmpty(buckets[..|buckets| - 1]);
    }
  }

  lemma {:induction false} SetSize<E>(m: multiset<E>, s: set<E>)
    requires forall x :: x in m ==> m[x] == 1
    requires forall x :: x in s <==> x in m
    ensures |s| == |m|
  {
    if s != {} {
      var x :| x in s;
      SetSize(m - multiset{x}, s - {x});
    } else {
      assert m == multiset{};
    }
  }

  // ---- the table ----

  /** The equality that `less` induces. */
  predicate Equal<E>(less: (E, E) -> bool, x: E, y: E) {
    !less(x, y) && !less(y, x)
  }

  /** What the client's functions must satisfy: an equivalence, respected by the hash. */
  ghost predicate Consistent<E(!new)>(hash: E -> nat, less: (E, E) -> bool) {
    && (forall x :: Equal(less, x, x))
    && (forall x, y, z :: Equal(less, x, y) && Equal(less, y, z) ==> Equal(less, x, z))
    && (forall x, y :: Equal(less, x, y) ==> hash(x) == hash(y))
  }

  /** Every element is in the bucket its hash selects. */
  ghost predicate Placed<E>(hash: E -> nat, buckets: seq<seq<E>>) {
    forall i, e :: 0 <= i < |buckets| && e in buckets[i] ==> BucketIndex(hash(e), |buckets|) == i
  }

  /** No two equal elements, and none twice. */
  ghost predicate Apart<E>(less: (E, E) -> bool, m: multiset<E>) {
    && (forall x :: x in m ==> m[x] == 1)
    && (forall x, y :: x in m && y in m && Equal(less, x, y) ==> x == y)
  }

  ghost predicate GoodTable<E>(hash: E -> nat, less: (E, E) -> bool, buckets: seq<seq<E>>) {
    && |buckets| >= 4 && PowerOf2(|buckets|)
    && Placed(hash, buckets) && Apart(less, All(buckets))
  }

  lemma ApartAdd<E>(less: (E, E) -> bool, m: multiset<E>, e: E)
    requires Apart(less, m) && Equal(less, e, e) && forall x :: x in m ==> !Equal(less, x, e)
    ensures Apart(less, m + multiset{e})
  {
    forall x, y | x in m + multiset{e} && y in m + multiset{e} && Equal(less, x, y)
      ensures x == y
    {
      assert Equal(less, y, x);
    }
  }

  /** An element of the table that equals e is in e's bucket. */
  lemma FoundInBucket<E(!new)>(hash: E -> nat, less: (E, E) -> bool, buckets: seq<seq<E>>, e: E, x: E)
    requires Consistent(hash, less) && GoodTable(hash, less, buckets)
    requires x in All(buckets) && Equal(less, x, e)
    ensures BucketIndex(hash(e), |buckets|) < |buckets|
    ensures x in buckets[BucketIndex(hash(e), |buckets|)]
  {
    InAll(buckets, x);
    BucketInRange(hash(e), |buckets|);
  }

  function PushFront<E>(buckets: seq<seq<E>>, i: nat, e: E): seq<seq<E>>
    requires i < |buckets|
  {
    buckets[i := [e] + buckets[i]]
  }

  lemma PushFrontAll<E>(hash: E -> nat, buckets: seq<seq<E>>, i: nat, e: E)
    requires i < |buckets| && Placed(hash, buckets) && i == BucketIndex(hash(e), |buckets|)
    ensures Placed(hash, PushFront(buckets, i, e))
    ensures All(PushFront(buckets, i, e)) == All(buckets) + multiset{e}
  {
    AllUpdate(buckets, i, [e] + buckets[i]);
  }

  lemma PrefixStep<E>(s: seq<E>, k: nat)
    requires k < |s|
    ensures multiset(s[..k + 1]) == multiset(s[..k]) + multiset{s[k]}
  {
    assert s[..k + 1] == s[..k] + [s[k]];
  }

  /** The bucket list without the element at position j of bucket i. */
  function Unlink<E>(buckets: seq<seq<E>>, i: nat, j: nat): seq<seq<E>>
    requires i < |buckets| && j < |buckets[i]|
  {
    buckets[i := buckets[i][..j] + buckets[i][j + 1..]]
  }

  lemma UnlinkAll<E>(hash: E -> nat, buckets: seq<seq<E>>, i: nat, j: nat)
    requires i < |buckets| && j < |buckets[i]| && Placed(hash, buckets)
    ensures Placed(hash, Unlink(buckets, i, j))
    ensures All(Unlink(buckets, i, j)) == All(buckets) - multiset{buckets[i][j]}
    ensures buckets[i][j] in All(buckets)
  {
    var b := buckets[i];
    assert b == b[..j] + [b[j]] + b[j + 1..];
    AllUpdate(buckets, i, b[..j] + b[j + 1..]);
  }

  /** The bucket count rehash aims at: the largest power of two up to max(4, elems / 2). */
  method IdealCount(elemCnt: nat) returns (cnt: nat)
    ensures PowerOf2(cnt) && cnt >= 4
    ensures Balanced(elemCnt, cnt)
  {
    cnt := elemCnt / 2;
    if cnt < 4 {
      cnt := 4;
    }
    ghost var m := cnt;
    assert Pow2(2) == 4;
    while !IsPowerOf2(cnt)
      invariant 0 < cnt <= m && forall k: nat :: Pow2(k) <= m <==> Pow2(k) <= cnt
      decreases cnt
    {
      forall k: nat ensures Pow2(k) <= cnt <==> Pow2(k) <= TurnOffLeast1Bit(cnt) {
        TurnOffKeepsTop(cnt, k);
      }
      TurnOffKeepsTop(cnt, 0);
      cnt := TurnOffLeast1Bit(cnt);
    }
    IsPowerOf2Correct(cnt);
    ghost var k: nat :| Pow2(k) == cnt;
    assert Pow2(k + 1) == 2 * cnt;
  }

  /** The bucket count that rehash settles on for n elements. */
  predicate Balanced(n: nat, cnt: nat) {
    var ideal := if n / 2 < 4 then 4 else n / 2;
    cnt <= ideal < 2 * cnt
  }

  lemma {:induction false} PowersApart(i: nat, j: nat)
    requires i < j
    ensures 2 * Pow2(i) <= Pow2(j)
  {
    if i + 1 < j {
      PowersApart(i, j - 1);
    }
  }

  /** Only one power of two is balanced for n elements. */
  lemma BalancedOnce(n: nat, a: nat, b: nat)
    requires Balanced(n, a) && Balanced(n, b) && PowerOf2(a) && PowerOf2(b)
    ensures a == b
  {
    var i: nat :| Pow2(i) == a;
    var j: nat :| Pow2(j) == b;
    if i < j {
      PowersApart(i, j);
    } else if j < i {
      PowersApart(j, i);
    }
  }

  /** struct hash. A bucket is its list of elements, front first. */
  class Table<E(==,!new)> {
    const hash: E -> nat
    const less: (E, E) -> bool
    var buckets: seq<seq<E>>
    var elemCnt: nat

    ghost predicate Valid()
      reads this
    {
      GoodTable(hash, less, buckets) && elemCnt == |All(buckets)|
    }

    /** The set that the table stands for. */
    ghost function Contents(): set<E>
      reads this
    {
      set e | e in All(buckets)
    }

    /** elem_cnt is the number of elements, and no two of them are equal. */
    lemma ContentsApart()
      requires Valid()
      ensures elemCnt == |Contents()| && ApartSet(less, Contents())
    {
      SetSize(All(buckets), Contents());
    }

    constructor (hash: E -> nat, less: (E, E) -> bool)
      ensures this.hash == hash && this.less == less
      ensures Valid() && Contents() == {}
    {
      this.hash, this.less := hash, less;
      elemCnt := 0;
      buckets := [[], [], [], []];
      new;
      assert Pow2(2) == 4;
      AllEmpty(buckets);
    }

    /** find_elem: the first match in bucket i. */
    method FindElem(i: nat, e: E) returns (j: Option<nat>)
      requires i < |buckets|
      ensures j.Some? ==> j.value < |buckets[i]| && Equal(less, buckets[i][j.value], e)
      ensures j.None? ==> forall x :: x in buckets[i] ==> !Equal(less, x, e)
    {
      var k := 0;
      while k < |buckets[i]|
        invariant k <= |buckets[i]|
        invariant forall l :: 0 <= l < k ==> !Equal(less, buckets[i][l], e)
      {
        if Equal(less, buckets[i][k], e) {
          return Some(k);
        }
        k := k + 1;
      }
      return None;
    }

    /** find_bucket and find_elem together: the bucket of e, and where in it an equal element is, if any is. */
    method Locate(e: E) returns (i: nat, j: Option<nat>)
      requires Valid() && Consistent(hash, less)
      ensures i == BucketIndex(hash(e), |buckets|) < |buckets|
      ensures j.Some? ==> j.value < |buckets[i]| && Equal(less, buckets[i][j.value], e) && buckets[i][j.value] in Contents()
      ensures j.None? ==> forall x :: x in Contents() ==> !Equal(less, x, e)
    {
      i := BucketIndex(hash(e), |buckets|);
      BucketInRange(hash(e), |buckets|);
      j := FindElem(i, e);
      forall x | x in Contents() && Equal(less, x, e) ensures x in buckets[i] {
        FoundInBucket(hash, less, buckets, e, x);
      }
      if j.Some? {
        InAll(buckets, buckets[i][j.value]);
      }
    }

    /** hash_find. */
    method Find(e: E) returns (r: Option<E>)
      requires Valid() && Consistent(hash, less)
      ensures Answers(less, Contents(), e, r)
    {
      var i, j := Locate(e);
      r := if j.Some? then Some(buckets[i][j.value]) else None;
    }

    /** insert_elem. */
    method InsertElem(i: nat, e: E)
      requires Valid() && i == BucketIndex(hash(e), |buckets|) < |buckets|
      requires Consistent(hash, less) && forall x :: x in Contents() ==> !Equal(less, x, e)
      modifies this
      ensures Valid() && Contents() == old(Contents()) + {e}
    {
      PushFrontAll(hash, buckets, i, e);
      ApartAdd(less, All(buckets), e);
      elemCnt := elemCnt + 1;
      buckets := PushFront(buckets, i, e);
    }

    /** remove_elem. */
    method RemoveElem(i: nat, j: nat)
      requires Valid() && i < |buckets| && j < |buckets[i]|
      modifies this
      ensures Valid() && |buckets| == old(|buckets|)
      ensures Contents() == old(Contents()) - {old(buckets[i][j])} && old(buckets[i][j]) in old(Contents())
    {
      UnlinkAll(hash, buckets, i, j);
      elemCnt := elemCnt - 1;
      buckets := Unlink(buckets, i, j);
    }

    method MoveElem(e: E)
      requires PowerOf2(|buckets|) && Placed(hash, buckets)
      modifies this`buckets
      ensures |buckets| == old(|buckets|) && Placed(hash, buckets)
      ensures All(buckets) == old(All(buckets)) + multiset{e}
    {
      var b := BucketIndex(hash(e), |buckets|);
      BucketInRange(hash(e), |buckets|);
      PushFrontAll(hash, buckets, b, e);
      buckets := PushFront(buckets, b, e);
    }

    /** The inner loop of rehash: one old bucket's elements go to the front of their new buckets. */
    method MoveBucket(from: seq<E>)
      requires PowerOf2(|buckets|) && Placed(hash, buckets)
      modifies this`buckets
      ensures |buckets| == old(|buckets|) && Placed(hash, buckets)
      ensures All(buckets) == old(All(buckets)) + multiset(from)
    {
      for k := 0 to |from|
        invariant |buckets| == old(|buckets|) && Placed(hash, buckets)
        invariant All(buckets) == old(All(buckets)) + multiset(from[..k])
      {
        MoveElem(from[k]);
        PrefixStep(from, k);
      }
      assert from[..|from|] == from;
    }

    method MoveAll(from: seq<seq<E>>)
      requires PowerOf2(|buckets|) && Placed(hash, buckets) && All(buckets) == multiset{}
      modifies this`buckets
      ensures |buckets| == old(|buckets|) && Placed(hash, buckets) && All(buckets) == All(from)
    {
      for i := 0 to |from|
        invariant |buckets| == old(|buckets|) && Placed(hash, buckets)
        invariant All(buckets) == All(from[..i])
      {
        MoveBucket(from[i]);
        assert from[..i + 1][..i] == from[..i];
      }
      assert from[..|from|] == from;
    }

    /**
     * rehash: changes no element, whether or not the new buckets could be allocated. When it installs new
     * buckets (or needs none), their number is the largest power of two up to max(4, elem_cnt / 2).
     */
    method Rehash(canAlloc: bool) returns (failed: bool)
      requires Valid()
      modifies this`buckets
      ensures Valid() && Contents() == old(Contents())
      ensures failed <==> !canAlloc && !Balanced(elemCnt, |old(buckets)|)
      ensures failed ==> buckets == old(buckets)
      ensures !failed ==> Balanced(elemCnt, |buckets|)
    {
      var cnt := IdealCount(elemCnt);
      if cnt == |buckets| {
        return false;
      }
      if Balanced(elemCnt, |buckets|) {
        BalancedOnce(elemCnt, cnt, |buckets|);
      }
      failed := !canAlloc;
      if failed {
        return;
      }
      var oldBuckets := buckets;
      buckets := seq(cnt, _ => []);
      AllEmpty(buckets);
      MoveAll(oldBuckets);
    }

    /** hash_insert: adds new unless an equal element is there, which it returns. */
    method Insert(new_: E, canAlloc: bool) returns (r: Option<E>)
      requires Valid() && Consistent(hash, less)
      modifies this
      ensures Valid() && Answers(less, old(Contents()), new_, r)
      ensures Contents() == if r.None? then old(Contents()) + {new_} else old(Contents())
      ensures canAlloc ==> Balanced(elemCnt, |buckets|)
    {
      var i, j := Locate(new_);
      if j.None? {
        r := None;
        InsertElem(i, new_);
      } else {
        r := Some(buckets[i][j.value]);
      }
      var _ := Rehash(canAlloc);
    }

    /** hash_replace: new takes the place of an equal element, which it returns. */
    method Replace(new_: E, canAlloc: bool) returns (r: Option<E>)
      requires Valid() && Consistent(hash, less)
      modifies this
      ensures Valid() && Answers(less, old(Contents()), new_, r)
      ensures Contents() == (if r.None? then old(Contents()) else old(Contents()) - {r.value}) + {new_}
      ensures canAlloc ==> Balanced(elemCnt, |buckets|)
    {
      var i, j := Locate(new_);
      ContentsApart();
      if j.None? {
        r := None;
      } else {
        r := Some(buckets[i][j.value]);
        OthersApart(hash, less, Contents(), r.value, new_);
        RemoveElem(i, j.value);
      }
      InsertElem(i, new_);
      var _ := Rehash(canAlloc);
    }

    /** hash_delete: removes and returns the equal element. */
    method Delete(e: E, canAlloc: bool) returns (r: Option<E>)
      requires Valid() && Consistent(hash, less)
      modifies this
      ensures Valid() && Answers(less, old(Contents()), e, r)
      ensures Contents() == if r.None? then old(Contents()) else old(Contents()) - {r.value}
      ensures canAlloc && r.Some? ==> Balanced(elemCnt, |buckets|)
    {
      var i, j := Locate(e);
      if j.None? {
        return None;
      }
      r := Some(buckets[i][j.value]);
      RemoveElem(i, j.value);
      var _ := Rehash(canAlloc);
    }
  }

  ghost predicate ApartSet<E>(less: (E, E) -> bool, s: set<E>) {
    forall x, y :: x in s && y in s && Equal(less, x, y) ==> x == y
  }

  /** Once the element equal to e is gone, none equals e. */
  lemma OthersApart<E(!new)>(hash: E -> nat, less: (E, E) -> bool, s: set<E>, x: E, e: E)
    requires Consistent(hash, less) && ApartSet(less, s) && x in s && Equal(less, x, e)
    ensures forall y :: y in s - {x} ==> !Equal(less, y, e)
  {
    forall y | y in s && Equal(less, y, e) ensures y == x {
      assert Equal(less, e, x);
    }
  }

  /** r is the element of s that equals e, if there is one. */
  ghost predicate Answers<E>(less: (E, E) -> bool, s: set<E>, e: E, r: Option<E>) {
    match r
    case Some(x) => x in s && Equal(less, x, e)
    case None => forall x :: x in s ==> !Equal(less, x, e)
  }

  // ---- iteration ----

  /** The elements from position p of bucket b on, in order. */
  ghost function From<E>(buckets: seq<seq<E>>, b: nat, p: nat): seq<E>
    decreases |buckets| - b, if b < |buckets| then |buckets[b]| - p else 0
  {
    if b >= |buckets| then []
    else if p >= |buckets[b]| then From(buckets, b + 1, 0)
    else [buckets[b][p]] + From(buckets, b, p + 1)
  }

  lemma AllPrefix<E>(buckets: seq<seq<E>>, b: nat)
    requires b < |buckets|
    ensures All(buckets[..b + 1]) == All(buckets[..b]) + multiset(buckets[b][0..])
  {
    assert buckets[b][0..] == buckets[b] && buckets[..b + 1][..b] == buckets[..b];
  }

  lemma TailStep<E>(s: seq<E>, p: nat)
    requires p < |s|
    ensures multiset(s[p..]) == multiset([s[p]]) + multiset(s[p + 1..])
  {
    assert s[p..] == [s[p]] + s[p + 1..];
  }

  lemma SumsRegroup<E>(a: multiset<E>, b: multiset<E>, c: multiset<E>)
    ensures a + (b + c) == (a + b) + c
  {
  }

  lemma {:induction false} FromBucket<E>(buckets: seq<seq<E>>, b: nat, p: nat)
    requires b < |buckets| && p <= |buckets[b]|
    ensures multiset(From(buckets, b, p)) == multiset(buckets[b][p..]) + multiset(From(buckets, b + 1, 0))
    decreases |buckets[b]| - p
  {
    if p < |buckets[b]| {
      FromBucket(buckets, b, p + 1);
      TailStep(buckets[b], p);
    }
  }

  /** The buckets before b and the elements visited from b on make up the table. */
  lemma {:induction false} FromAll<E>(buckets: seq<seq<E>>, b: nat)
    requires b <= |buckets|
    ensures All(buckets[..b]) + multiset(From(buckets, b, 0)) == All(buckets)
    decreases |buckets| - b
  {
    hide All;
    if b < |buckets| {
      FromBucket(buckets, b, 0);
      FromAll(buckets, b + 1);
      AllPrefix(buckets, b);
      SumsRegroup(All(buckets[..b]), multiset(buckets[b][0..]), multiset(From(buckets, b + 1, 0)));
    } else {
      assert buckets[..b] == buckets;
    }
  }

  /** struct hash_iterator: a bucket and a position in it, -1 for the list head. */
  class Iterator<E(==,!new)> {
    const buckets: seq<seq<E>>
    var bucket: nat
    var pos: int
    var finished: bool

    ghost predicate Valid()
      reads this
    {
      !finished ==> bucket < |buckets| && -1 <= pos < |buckets[bucket]|
    }

    /** What the iteration has still to visit. */
    ghost function Remaining(): seq<E>
      requires Valid()
      reads this
    {
      if finished then [] else From(buckets, bucket, pos + 1)
    }

    /** hash_first. */
    constructor (table: Table<E>)
      requires table.Valid()
      ensures Valid() && !finished && Remaining() == From(table.buckets, 0, 0)
    {
      buckets := table.buckets;
      bucket, pos, finished := 0, -1, false;
    }

    /** hash_next: takes the head of what remains, and reports the end exactly when nothing does. */
    method Next() returns (r: Option<E>)
      requires Valid() && !finished
      modifies this
      ensures Valid() && (finished <==> r.None?)
      ensures r.None? ==> old(Remaining()) == []
      ensures r.Some? ==> old(Remaining()) == [r.value] + Remaining()
    {
      pos := pos + 1;
      while pos == |buckets[bucket]|
        invariant !finished && bucket < |buckets| && 0 <= pos <= |buckets[bucket]|
        invariant From(buckets, bucket, pos) == old(Remaining())
        decreases |buckets| - bucket
      {
        bucket := bucket + 1;
        if bucket >= |buckets| {
          finished := true;
          return None;
        }
        pos := 0;
      }
      r := Some(buckets[bucket][pos]);
    }
  }

  lemma Regroup<E>(s: seq<E>, e: E, t: seq<E>)
    ensures s + ([e] + t) == (s + [e]) + t
  {
  }

  /** A full iteration visits every element exactly once. */
  method Traverse<E(==,!new)>(table: Table<E>) returns (visited: seq<E>)
    requires table.Valid()
    ensures multiset(visited) == All(table.buckets)
    ensures |visited| == table.elemCnt && forall e :: e in table.Contents() <==> e in visited
    ensures forall i, j :: 0 <= i < j < |visited| ==> visited[i] != visited[j]
  {
    FromAll(table.buckets, 0);
    visited := Visit(table);
    NoRepeats(visited, All(table.buckets));
  }

  /** The idiom of hash_first and hash_next. */
  method Visit<E(==,!new)>(table: Table<E>) returns (visited: seq<E>)
    requires table.Valid()
    ensures visited == From(table.buckets, 0, 0)
  {
    var it := new Iterator(table);
    visited := [];
    ghost var whole := it.Remaining();
    while !it.finished
      invariant it.Valid() && fresh(it)
      invariant whole == visited + it.Remaining()
      decreases !it.finished, |it.Remaining()|
    {
      var e := it.Next();
      if e.Some? {
        Regroup(visited, e.value, it.Remaining());
        visited := visited + [e.value];
      }
    }
  }

  lemma NoRepeats<E>(s: seq<E>, m: multiset<E>)
    requires multiset(s) == m && forall x :: x in m ==> m[x] == 1
    ensures forall i, j :: 0 <= i < j < |s| ==> s[i] != s[j]
    ensures forall e :: e in m <==> e in s
  {
    forall i, j | 0 <= i < j < |s| ensures s[i] != s[j] {
      assert s == s[..i] + [s[i]] + s[i + 1..j] + [s[j]] + s[j + 1..];
      assert s[i] == s[j] ==> multiset(s)[s[i]] >= 2;
    }
  }

  // ---- whole runs ----

  datatype Op<E> = DoInsert(e: E) | DoReplace(e: E) | DoFind(e: E) | DoDelete(e: E)

  /** One operation on a plain set without equal elements. */
  ghost predicate SetStep<E>(less: (E, E) -> bool, s: set<E>, op: Op<E>, r: Option<E>, s': set<E>) {
    && Answers(less, s, op.e, r)
    && s' == match op
             case DoInsert(e) => if r.None? then s + {e} else s
             case DoReplace(e) => (if r.None? then s else s - {r.value}) + {e}
             case DoFind(_) => s
             case DoDelete(_) => if r.None? then s else s - {r.value}
  }

  ghost predicate SetRun<E>(less: (E, E) -> bool, states: seq<set<E>>, ops: seq<Op<E>>, rs: seq<Option<E>>) {
    && |rs| == |ops| && |states| == |ops| + 1
    && forall i :: 0 <= i < |ops| ==> SetStep(less, states[i], ops[i], rs[i], states[i + 1])
  }

  /** The plain set determines every answer, so no rehash, done or failed, shows in one. */
  lemma {:induction false} RunDetermined<E(!new)>(hash: E -> nat, less: (E, E) -> bool, ops: seq<Op<E>>,
      states: seq<set<E>>, rs: seq<Option<E>>, states': seq<set<E>>, rs': seq<Option<E>>)
    requires Consistent(hash, less)
    requires SetRun(less, states, ops, rs) && SetRun(less, states', ops, rs')
    requires states[0] == states'[0] && ApartSet(less, states[0])
    ensures rs == rs' && states == states' && ApartSet(less, states[|ops|])
  {
    if ops != [] {
      var n := |ops| - 1;
      RunDetermined(hash, less, ops[..n], states[..n + 1], rs[..n], states'[..n + 1], rs'[..n]);
      assert SetStep(less, states[n], ops[n], rs[n], states[n + 1]) && SetStep(less, states'[n], ops[n], rs'[n], states'[n + 1]);
      AnswersDetermined(hash, less, states[n], ops[n].e, rs[n], rs'[n]);
      StepApart(hash, less, states[n], ops[n], rs[n], states[n + 1]);
      assert rs == rs[..n] + [rs[n]] && rs' == rs'[..n] + [rs'[n]];
      assert states == states[..n + 1] + [states[n + 1]] && states' == states'[..n + 1] + [states'[n + 1]];
    }
  }

  lemma AnswersDetermined<E(!new)>(hash: E -> nat, less: (E, E) -> bool, s: set<E>, e: E, r: Option<E>, r': Option<E>)
    requires Consistent(hash, less) && ApartSet(less, s) && Answers(less, s, e, r) && Answers(less, s, e, r')
    ensures r == r'
  {
    if r.Some? && r'.Some? {
      assert Equal(less, e, r'.value);
    }
  }

  lemma StepApart<E(!new)>(hash: E -> nat, less: (E, E) -> bool, s: set<E>, op: Op<E>, r: Option<E>, s': set<E>)
    requires Consistent(hash, less) && ApartSet(less, s) && SetStep(less, s, op, r, s')
    ensures ApartSet(less, s')
  {
    if r.Some? {
      OthersApart(hash, less, s, r.value, op.e);
    }
    forall x, y | x in s' && y in s' && Equal(less, x, y) ensures x == y {
      assert Equal(less, y, x);
    }
  }

  /** Whether the operation ends in a rehash. */
  predicate Rehashes<E>(op: Op<E>, r: Option<E>) {
    op.DoInsert? || op.DoReplace? || (op.DoDelete? && r.Some?)
  }

  /** The number of buckets follows the number of elements wherever memory allowed it. */
  ghost predicate KeepsBalance<E>(states: seq<set<E>>, counts: seq<nat>, ops: seq<Op<E>>, rs: seq<Option<E>>, memory: nat -> bool)
    requires |states| == |counts| == |ops| + 1 && |rs| == |ops|
  {
    forall i: nat :: i < |ops| && memory(i) && Rehashes(ops[i], rs[i]) ==> Balanced(|states[i + 1]|, counts[i + 1])
  }

  /** Any mix of operations answers as on the plain set; `memory` says at which of them new buckets can be allocated. */
  method Run<E(==,!new)>(table: Table<E>, ops: seq<Op<E>>, memory: nat -> bool)
    returns (rs: seq<Option<E>>, ghost states: seq<set<E>>, ghost counts: seq<nat>)
    requires table.Valid() && Consistent(table.hash, table.less)
    modifies table
    ensures table.Valid() && table.elemCnt == |table.Contents()|
    ensures SetRun(table.less, states, ops, rs)
    ensures states[0] == old(table.Contents()) && states[|ops|] == table.Contents()
    ensures |counts| == |ops| + 1 && counts[|ops|] == |table.buckets| && KeepsBalance(states, counts, ops, rs, memory)
  {
    hide SetStep, GoodTable, All, Balanced;
    rs, states, counts := [], [table.Contents()], [|table.buckets|];
    for i := 0 to |ops|
      invariant table.Valid() && |rs| == i && |states| == |counts| == i + 1
      invariant states[0] == old(table.Contents()) && states[i] == table.Contents() && counts[i] == |table.buckets|
      invariant SetRun(table.less, states, ops[..i], rs) && KeepsBalance(states, counts, ops[..i], rs, memory)
    {
      var r := Step(table, ops[i], memory(i));
      rs, states, counts := rs + [r], states + [table.Contents()], counts + [|table.buckets|];
    }
    assert ops[..|ops|] == ops;
    table.ContentsApart();
  }

  method Step<E(==,!new)>(table: Table<E>, op: Op<E>, canAlloc: bool) returns (r: Option<E>)
    requires table.Valid() && Consistent(table.hash, table.less)
    modifies table
    ensures table.Valid() && SetStep(table.less, old(table.Contents()), op, r, table.Contents())
    ensures canAlloc && Rehashes(op, r) ==> Balanced(|table.Contents()|, |table.buckets|)
  {
    match op {
      case DoInsert(e) => r := table.Insert(e, canAlloc);
      case DoReplace(e) => r := table.Replace(e, canAlloc);
      case DoFind(e) => r := table.Find(e);
      case DoDelete(e) => r := table.Delete(e, canAlloc);
    }
    table.ContentsApart();
  }
}
