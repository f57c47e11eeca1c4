/** Bitmaps packed into 32-bit words (lib/kernel/bitmap.c). */
module Bitmaps {

  const ELEM_BITS: nat := 32

  /** A machine word is its 32 bits, the lowest first. */
  type Word = w: seq<bool> | |w| == ELEM_BITS witness seq(ELEM_BITS, _ => false)

  function Or(v: Word, w: Word): Word {
    seq(ELEM_BITS, i requires 0 <= i < ELEM_BITS => v[i] || w[i])
  }

  function And(v: Word, w: Word): Word {
    seq(ELEM_BITS, i requires 0 <= i < ELEM_BITS => v[i] && w[i])
  }

  function Xor(v: Word, w: Word): Word {
    seq(ELEM_BITS, i requires 0 <= i < ELEM_BITS => v[i] != w[i])
  }

  function Not(w: Word): Word {
    seq(ELEM_BITS, i requires 0 <= i < ELEM_BITS => !w[i])
  }

  predicate IsZero(w: Word) {
    forall i :: 0 <= i < ELEM_BITS ==> !w[i]
  }

  /** Only the bit for `bit` is on. */
  function BitMask(bit: nat): Word {
    seq(ELEM_BITS, i => i == bit % ELEM_BITS)
  }

  function ElemCnt(bits: nat): nat {
    (bits + ELEM_BITS - 1) / ELEM_BITS
  }

  predicate TestWord(w: Word, bit: nat) {
    !IsZero(And(w, BitMask(bit)))
  }

  lemma TestWordIs(w: Word, bit: nat)
    ensures TestWord(w, bit) == w[bit % ELEM_BITS]
  {
    assert And(w, BitMask(bit))[bit % ELEM_BITS] == w[bit % ELEM_BITS];
  }

  lemma MarkedWord(w: Word, bit: nat, i: nat)
    requires i / ELEM_BITS == bit / ELEM_BITS
    ensures TestWord(Or(w, BitMask(bit)), i) <==> i == bit || TestWord(w, i)
  {
    TestWordIs(Or(w, BitMask(bit)), i);
    TestWordIs(w, i);
  }

  lemma ResetWord(w: Word, bit: nat, i: nat)
    requires i / ELEM_BITS == bit / ELEM_BITS
    ensures TestWord(And(w, Not(BitMask(bit))), i) <==> i != bit && TestWord(w, i)
  {
    TestWordIs(And(w, Not(BitMask(bit))), i);
    TestWordIs(w, i);
  }

  lemma FlippedWord(w: Word, bit: nat, i: nat)
    requires i / ELEM_BITS == bit / ELEM_BITS
    ensures TestWord(Xor(w, BitMask(bit)), i) <==> TestWord(w, i) != (i == bit)
  {
    TestWordIs(Xor(w, BitMask(bit)), i);
    TestWordIs(w, i);
  }

  /** bits[start..start + cnt] all equal `value`. */
  predicate AllAre(bits: seq<bool>, start: nat, cnt: nat, value: bool) {
    start + cnt <= |bits| && forall i :: start <= i < start + cnt ==> bits[i] == value
  }

  /** bits with [start, start + cnt) set to `value`. */
  function Filled(bits: seq<bool>, start: nat, cnt: nat, value: bool): (r: seq<bool>)
    requires start + cnt <= |bits|
    ensures |r| == |bits|
  {
    seq(|bits|, i requires 0 <= i < |bits| => if start <= i < start + cnt then value else bits[i])
  }

  function CountIn(bits: seq<bool>, start: nat, cnt: nat, value: bool): nat
    requires start + cnt <= |bits|
  {
    if cnt == 0 then 0
    else CountIn(bits, start, cnt - 1, value) + (if bits[start + cnt - 1] == value then 1 else 0)
  }

  /** The places in the range that hold `value`. */
  ghost function Places(bits: seq<bool>, start: nat, cnt: nat, value: bool): set<int>
    requires start + cnt <= |bits|
  {
    set i | start <= i < start + cnt && bits[i] == value
  }

  lemma {:induction false} CountIsPlaces(bits: seq<bool>, start: nat, cnt: nat, value: bool)
    requires start + cnt <= |bits|
    ensures CountIn(bits, start, cnt, value) == |Places(bits, start, cnt, value)|
  {
    if cnt > 0 {
      CountIsPlaces(bits, start, cnt - 1, value);
      var k := start + cnt - 1;
      assert Places(bits, start, cnt, value) == Places(bits, start, cnt - 1, value) + if bits[k] == value then {k} else {};
    }
  }

  class Bitmap {
    const bitCnt: nat
    const bits: array<Word>

    ghost predicate Valid() {
      bits.Length == ElemCnt(bitCnt)
    }

    predicate Test(i: nat)
      requires Valid() && i < bitCnt
      reads bits
    {
      TestWord(bits[i / ELEM_BITS], i)
    }

    /** From the outside, a bitmap is a sequence of bits. */
    ghost function Bits(): (s: seq<bool>)
      requires Valid()
      reads bits
      ensures |s| == bitCnt
    {
      seq(bitCnt, i requires 0 <= i < bitCnt reads bits => Test(i))
    }

    constructor (bitCnt: nat)
      ensures Valid() && fresh(bits) && this.bitCnt == bitCnt
      ensures Bits() == seq(bitCnt, _ => false)
    {
      this.bitCnt := bitCnt;
      bits := new Word[ElemCnt(bitCnt)];
      new;
      SetMultiple(0, bitCnt, false);
    }

    method Mark(bit: nat)
      requires Valid() && bit < bitCnt
      modifies bits
      ensures Bits() == old(Bits())[bit := true]
    {
      var idx := bit / ELEM_BITS;
      ghost var w := bits[idx];
      bits[idx] := Or(bits[idx], BitMask(bit));
      forall i | 0 <= i < bitCnt
        ensures Test(i) == if i == bit then true else old(Test(i))
      {
        if i / ELEM_BITS == idx {
          MarkedWord(w, bit, i);
        }
      }
    }

    method Reset(bit: nat)
      requires Valid() && bit < bitCnt
      modifies bits
      ensures Bits() == old(Bits())[bit := false]
    {
      var idx := bit / ELEM_BITS;
      ghost var w := bits[idx];
      bits[idx] := And(bits[idx], Not(BitMask(bit)));
      forall i | 0 <= i < bitCnt
        ensures Test(i) == if i == bit then false else old(Test(i))
      {
        if i / ELEM_BITS == idx {
          ResetWord(w, bit, i);
        }
      }
    }

    method Flip(bit: nat)
      requires Valid() && bit < bitCnt
      modifies bits
      ensures Bits() == old(Bits())[bit := !old(Bits())[bit]]
    {
      var idx := bit / ELEM_BITS;
      ghost var w := bits[idx];
      bits[idx] := Xor(bits[idx], BitMask(bit));
      forall i | 0 <= i < bitCnt
        ensures Test(i) == if i == bit then !old(Test(bit)) else old(Test(i))
      {
        if i / ELEM_BITS == idx {
          FlippedWord(w, bit, i);
        }
      }
    }

    method Set(bit: nat, value: bool)
      requires Valid() && bit < bitCnt
      modifies bits
      ensures Bits() == old(Bits())[bit := value]
    {
      if value {
        Mark(bit);
      } else {
        Reset(bit);
      }
    }

    method SetMultiple(start: nat, cnt: nat, value: bool)
      requires Valid() && start + cnt <= bitCnt
      modifies bits
      ensures Bits() == Filled(old(Bits()), start, cnt, value)
      ensures forall i :: 0 <= i < bitCnt ==> Bits()[i] == if start <= i < start + cnt then value else old(Bits())[i]
    {
      var i := 0;
      while i < cnt
        invariant 0 <= i <= cnt
        invariant Bits() == Filled(old(Bits()), start, i, value)
      {
        Set(start + i, value);
        i := i + 1;
      }
    }

    method Count(start: nat, cnt: nat, value: bool) returns (n: nat)
      requires Valid() && start + cnt <= bitCnt
      ensures n == CountIn(Bits(), start, cnt, value) == |Places(Bits(), start, cnt, value)|
    {
      CountIsPlaces(Bits(), start, cnt, value);
      n := 0;
      var i := 0;
      while i < cnt
        invariant 0 <= i <= cnt && n == CountIn(Bits(), start, i, value)
      {
        if Test(start + i) == value {
          n := n + 1;
        }
        i := i + 1;
      }
    }

    method Contains(start: nat, cnt: nat, value: bool) returns (r: bool)
      requires Valid() && start + cnt <= bitCnt
      ensures r <==> !AllAre(Bits(), start, cnt, !value)
    {
      var i := 0;
      while i < cnt
        invariant 0 <= i <= cnt && AllAre(Bits(), start, i, !value)
      {
        if Test(start + i) == value {
          assert Bits()[start + i] == value;
          return true;
        }
        i := i + 1;
      }
      r := false;
    }

    /** The first group of `cnt` bits at or after `start` that are all `value`; bitCnt + 1 stands for no such group. */
    method Scan(start: nat, cnt: nat, value: bool) returns (i: nat)
      requires Valid() && start <= bitCnt
      ensures i <= bitCnt ==> start <= i && AllAre(Bits(), i, cnt, value)
      ensures forall j :: start <= j < i && j <= bitCnt ==> !AllAre(Bits(), j, cnt, value)
      ensures i <= bitCnt + 1
    {
      if cnt <= bitCnt {
        var last := bitCnt - cnt;
        i := start;
        while i <= last
          invariant start <= i <= bitCnt + 1
          invariant forall j :: start <= j < i ==> !AllAre(Bits(), j, cnt, value)
        {
          var other := Contains(i, cnt, !value);
          if !other {
            return;
          }
          i := i + 1;
        }
      }
      i := bitCnt + 1;
    }

    /** Finds such a group and flips it; nothing changes if there is none. */
    method ScanAndFlip(start: nat, cnt: nat, value: bool) returns (i: nat)
      requires Valid() && start <= bitCnt
      modifies bits
      ensures i <= bitCnt + 1
      ensures forall j :: start <= j < i && j <= bitCnt ==> !AllAre(old(Bits()), j, cnt, value)
      ensures i <= bitCnt ==> start <= i && AllAre(old(Bits()), i, cnt, value) && Bits() == Filled(old(Bits()), i, cnt, !value)
      ensures i == bitCnt + 1 ==> Bits() == old(Bits())
    {
      i := Scan(start, cnt, value);
      assert Bits() == old(Bits());
      if i != bitCnt + 1 {
        SetMultiple(i, cnt, !value);
      }
    }
  }
}
