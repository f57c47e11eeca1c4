/** The page allocator (threads/palloc.c): pools of pages over a bitmap of used pages. */
module PageAllocator {
  import opened Bitmaps
  import opened Definitions
  import opened Wrappers

  const SIZEOF_BITMAP: nat := 8      // struct bitmap
  const SIZEOF_ELEM: nat := 4        // elem_type

  /** The pages that a pool of `cnt` pages spends on its own bitmap. */
  function BitmapPages(cnt: nat): nat {
    (SIZEOF_BITMAP + SIZEOF_ELEM * ElemCnt(cnt) + PAGE_SIZE - 1) / PAGE_SIZE
  }

  /** n pages from q on, inside [lo, hi), are not used. */
  ghost predicate FreeFrom(used: set<int>, lo: int, hi: int, q: int, n: nat) {
    lo <= q && q + n <= hi && forall k :: q <= k < q + n ==> k !in used
  }

  /** Some n consecutive pages of [lo, hi) are not used. */
  ghost predicate HasRun(used: set<int>, lo: int, hi: int, n: nat) {
    exists q :: FreeFrom(used, lo, hi, q, n)
  }

  /** A pool of pages numbered from `base`. */
  class Pool {
    const base: nat
    const usedMap: Bitmap

    ghost predicate Valid() {
      usedMap.Valid()
    }

    /** The page number belongs to this pool. */
    predicate PageFromPool(page: int) {
      base <= page < base + usedMap.bitCnt
    }

    predicate Used(page: int)
      requires Valid()
      reads usedMap.bits
    {
      PageFromPool(page) && usedMap.Test(page - base)
    }

    /** A pool over the `cnt` pages from `start`; the first of them hold the bitmap. */
    constructor (start: nat, cnt: nat)
      requires BitmapPages(cnt) <= cnt
      ensures Valid() && fresh(usedMap) && fresh(usedMap.bits)
      ensures base == start + BitmapPages(cnt) && base + usedMap.bitCnt == start + cnt
      ensures 4096 * (base - start - 1) < 8 + 4 * ((cnt + 31) / 32) <= 4096 * (base - start)
      ensures forall page :: !Used(page)
    {
      var bm := BitmapPages(cnt);
      base := start + bm;
      usedMap := new Bitmap(cnt - bm);
      new;
      forall page
        ensures !Used(page)
      {
        if PageFromPool(page) {
          assert !usedMap.Bits()[page - base];
        }
      }
    }

    /** The pages in use. */
    ghost function UsedPages(): (s: set<int>)
      requires Valid()
      reads usedMap.bits
      ensures forall q :: q in s <==> Used(q)
    {
      set q | base <= q < base + usedMap.bitCnt && Used(q)
    }

    /** Whether n consecutive pages can be had. */
    ghost predicate HasPages(n: nat)
      requires Valid()
      reads usedMap.bits
    {
      HasRun(UsedPages(), base, base + usedMap.bitCnt, n)
    }

    lemma HasPagesIs(n: nat)
      requires Valid()
      ensures HasPages(n) <==> exists q :: base <= q && FreeRun(q, n)
    {
      if HasPages(n) {
        var q :| FreeFrom(UsedPages(), base, base + usedMap.bitCnt, q, n);
        assert FreeRun(q, n);
      }
      if exists q :: base <= q && FreeRun(q, n) {
        var q :| base <= q && FreeRun(q, n);
        assert FreeFrom(UsedPages(), base, base + usedMap.bitCnt, q, n);
      }
    }

    /** cnt consecutive pages of the pool are free from `page` on. */
    ghost predicate FreeRun(page: int, cnt: nat)
      requires Valid()
      reads usedMap.bits
    {
      base <= page && page + cnt <= base + usedMap.bitCnt && forall q :: page <= q < page + cnt ==> !Used(q)
    }

    lemma FreeRunIs(i: nat, cnt: nat)
      requires Valid()
      ensures AllAre(usedMap.Bits(), i, cnt, false) <==> FreeRun(base + i, cnt)
    {
      if FreeRun(base + i, cnt) {
        forall j | i <= j < i + cnt
          ensures usedMap.Bits()[j] == false
        {
          assert !Used(base + j);
        }
      }
      if AllAre(usedMap.Bits(), i, cnt, false) {
        forall q | base + i <= q < base + i + cnt
          ensures !Used(q)
        {
          assert usedMap.Bits()[q - base] == false;
        }
      }
    }

    /** Takes the lowest run of `cnt` free pages; fails only when there is none, or for no pages at all. */
    method GetMultiple(cnt: nat) returns (page: Option<nat>)
      requires Valid()
      modifies usedMap.bits
      ensures page.Some? ==> old(FreeRun(page.value, cnt))
      ensures page.Some? ==> forall q :: Used(q) <==> old(Used(q)) || page.value <= q < page.value + cnt
      ensures page.Some? ==> forall q :: base <= q < page.value ==> !old(FreeRun(q, cnt))
      ensures page.None? <==> cnt == 0 || !old(HasPages(cnt))
      ensures page.None? ==> forall q :: Used(q) <==> old(Used(q))
    {
      if cnt == 0 {
        return None;
      }
      HasPagesIs(cnt);
      forall i: nat
        ensures AllAre(usedMap.Bits(), i, cnt, false) <==> FreeRun(base + i, cnt)
      {
        FreeRunIs(i, cnt);
      }
      var i := usedMap.ScanAndFlip(0, cnt, false);
      assert forall q :: base <= q ==> (old(FreeRun(q, cnt)) <==> AllAre(old(usedMap.Bits()), q - base, cnt, false)) by {
        forall q | base <= q
          ensures old(FreeRun(q, cnt)) <==> AllAre(old(usedMap.Bits()), q - base, cnt, false)
        {
          var j: nat := q - base;
          assert old(FreeRun(base + j, cnt)) <==> AllAre(old(usedMap.Bits()), j, cnt, false);
        }
      }
      forall q
        ensures Used(q) <==> old(Used(q)) || (i <= usedMap.bitCnt && base + i <= q < base + i + cnt)
      {
        if PageFromPool(q) {
          assert usedMap.Bits()[q - base] == Used(q) && old(usedMap.Bits())[q - base] == old(Used(q));
        }
      }
      page := if i <= usedMap.bitCnt then Some(base + i) else None;
    }

    /** Gives back `cnt` pages, all of them in use. */
    method FreeMultiple(page: nat, cnt: nat)
      requires Valid() && base <= page && page + cnt <= base + usedMap.bitCnt
      requires forall q :: page <= q < page + cnt ==> Used(q)
      modifies usedMap.bits
      ensures forall q :: Used(q) <==> old(Used(q)) && !(page <= q < page + cnt)
    {
      usedMap.SetMultiple(page - base, cnt, false);
      forall q
        ensures Used(q) <==> old(Used(q)) && !(page <= q < page + cnt)
      {
        if PageFromPool(q) {
          assert usedMap.Bits()[q - base] == Used(q) && old(usedMap.Bits())[q - base] == old(Used(q));
        }
      }
    }
  }
}
