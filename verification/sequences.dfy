/** Sequence edits shared by the lists, tables and buffers. */
module Sequences {
  ghost predicate Distinct<T>(s: seq<T>) {
    forall i, j :: 0 <= i < j < |s| ==> s[i] != s[j]
  }

  /** Where the element at position x comes from when the block [j, k) moves back to start at i. */
  function Origin(i: nat, j: nat, k: nat, x: nat): nat
    requires i <= j <= k
  {
    if x < i || x >= k then x
    else if x < i + (k - j) then x - i + j
    else x - (k - j)
  }

  /** s with the block [j, k) moved back to start at i. */
  function MoveBack<T>(s: seq<T>, i: nat, j: nat, k: nat): (r: seq<T>)
    requires i <= j <= k <= |s|
    ensures |r| == |s|
  {
    seq(|s|, x requires 0 <= x < |s| => s[Origin(i, j, k, x)])
  }

  lemma MoveBackParts<T>(s: seq<T>, i: nat, j: nat, k: nat)
    requires i <= j <= k <= |s|
    ensures MoveBack(s, i, j, k) == s[..i] + s[j..k] + s[i..j] + s[k..]
  {
  }

  lemma Associates<T>(a: seq<T>, b: seq<T>, c: seq<T>)
    ensures a + b + c == a + (b + c)
  {
  }

  /** Moving a block to an earlier place is taking it out and putting it in there. */
  lemma BlockEarlier<T>(s: seq<T>, i: nat, j: nat, k: nat)
    requires i <= j <= k <= |s|
    ensures var rest := s[..j] + s[k..]; rest[..i] + s[j..k] + rest[i..] == MoveBack(s, i, j, k)
  {
    hide MoveBack;
    var rest := s[..j] + s[k..];
    MoveBackParts(s, i, j, k);
    assert rest[..i] == s[..i] && rest[i..] == s[i..j] + s[k..];
    Associates(s[..i] + s[j..k], s[i..j], s[k..]);
  }

  /** The same for a later place: the elements between move back past the block. */
  lemma BlockLater<T>(s: seq<T>, i: nat, j: nat, k: nat)
    requires j <= k <= i <= |s|
    ensures var rest, m := s[..j] + s[k..], i - (k - j); rest[..m] + s[j..k] + rest[m..] == MoveBack(s, j, k, i)
  {
    hide MoveBack;
    var rest, m := s[..j] + s[k..], i - (k - j);
    MoveBackParts(s, j, k, i);
    assert rest[..m] == s[..j] + s[k..i] && rest[m..] == s[i..];
  }

  lemma MoveBackEnds<T>(s: seq<T>, i: nat, j: nat, k: nat, lo: nat, hi: nat)
    requires lo <= i <= j <= k <= hi <= |s|
    ensures MoveBack(s, i, j, k)[..lo] == s[..lo] && MoveBack(s, i, j, k)[hi..] == s[hi..]
  {
  }

  /** After the element at j jumps back to i: where i, j + 1 and hi end up, and that no element is new. */
  lemma JumpPositions<T>(t: seq<T>, i: nat, j: nat, hi: nat, s: seq<T>)
    requires i < j < hi < |t| && forall p :: 0 <= p < |t| ==> t[p] in s
    ensures var r := MoveBack(t, i, j, j + 1);
            |r| == |t| && r[i + 1] == t[i] && r[j + 1] == t[j + 1] && r[hi] == t[hi] &&
            forall p :: 0 <= p < |r| ==> r[p] in s
  {
  }

  /** Dropping both ends commutes with a move that stays inside. */
  lemma MoveBackInside<T>(s: seq<T>, i: nat, j: nat, k: nat)
    requires 1 <= i <= j <= k < |s|
    ensures MoveBack(s, i, j, k)[1..|s| - 1] == MoveBack(s[1..|s| - 1], i - 1, j - 1, k - 1)
  {
    var r := MoveBack(s, i, j, k);
    var q := MoveBack(s[1..|s| - 1], i - 1, j - 1, k - 1);
    forall x | 0 <= x < |s| - 2
      ensures r[1..|s| - 1][x] == q[x]
    {
    }
  }

  /** s with x put in at position i. */
  function InsertAt<T>(s: seq<T>, i: nat, x: T): (r: seq<T>)
    requires i <= |s|
    ensures |r| == |s| + 1
  {
    seq(|s| + 1, k requires 0 <= k <= |s| => if k < i then s[k] else if k == i then x else s[k - 1])
  }

  lemma InsertAfterHead<T>(s: seq<T>, i: nat, x: T)
    requires 0 < i <= |s|
    ensures [s[0]] + InsertAt(s[1..], i - 1, x) == InsertAt(s, i, x)
  {
  }

  lemma InsertBetween<T>(a: seq<T>, x: T, b: seq<T>)
    ensures InsertAt(a + b, |a|, x) == a + [x] + b
  {
  }

  /** s without its element at position i. */
  function RemoveAt<T>(s: seq<T>, i: nat): (r: seq<T>)
    requires i < |s|
    ensures |r| == |s| - 1
  {
    seq(|s| - 1, k requires 0 <= k < |s| - 1 => if k < i then s[k] else s[k + 1])
  }

  lemma InsertAtDistinct<T>(s: seq<T>, i: nat, x: T)
    requires Distinct(s) && x !in s && i <= |s|
    ensures Distinct(InsertAt(s, i, x))
    ensures forall y :: y in InsertAt(s, i, x) <==> y in s || y == x
  {
    var r := InsertAt(s, i, x);
    assert r[i] == x;
    forall y | y in s ensures y in r {
      var k :| 0 <= k < |s| && s[k] == y;
      assert r[if k < i then k else k + 1] == y;
    }
  }

  lemma RemoveAtDistinct<T>(s: seq<T>, i: nat)
    requires Distinct(s) && i < |s|
    ensures Distinct(RemoveAt(s, i))
    ensures forall y :: y in RemoveAt(s, i) <==> y in s && y != s[i]
  {
    var r := RemoveAt(s, i);
    forall y | y in s && y != s[i] ensures y in r {
      var k :| 0 <= k < |s| && s[k] == y;
      assert r[if k < i then k else k - 1] == y;
    }
  }

  /** s with the elements from `at` on replaced by `data`. */
  function Overwrite<T>(s: seq<T>, at: nat, data: seq<T>): (r: seq<T>)
    requires at + |data| <= |s|
    ensures |r| == |s|
  {
    seq(|s|, i requires 0 <= i < |s| => if at <= i < at + |data| then data[i - at] else s[i])
  }

  /** Two neighbouring overwrites make one. */
  lemma OverwriteJoin<T>(s: seq<T>, at: nat, a: seq<T>, b: seq<T>)
    requires at + |a| + |b| <= |s|
    ensures Overwrite(Overwrite(s, at, a), at + |a|, b) == Overwrite(s, at, a + b)
  {
  }
}
