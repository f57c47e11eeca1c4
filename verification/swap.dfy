/** The swap table (vm/swap.c): page-sized slots on a sector disk, recycled through one list. */
module Swap {
  import opened Definitions
  import opened Wrappers

  type Upage = nat
  type Disk = map<nat, seq<Byte>>

  const SECTORS_PER_PAGE: nat := 8

  /** A slot: its first sector and the page it holds, if any. */
  datatype Slot = Slot(sector: nat, upage: Option<Upage>)

  predicate IsPage(c: seq<Byte>) {
    |c| == PAGE_SIZE
  }

  ghost predicate HasSectors(disk: Disk, sector: nat, n: nat) {
    forall i :: sector <= i < sector + n ==> i in disk && |disk[i]| == SECTOR_SIZE
  }

  /** The n sectors from `sector` on, in order. */
  ghost function Blocks(disk: Disk, sector: nat, n: nat): (r: seq<Byte>)
    requires HasSectors(disk, sector, n)
    ensures |r| == n * SECTOR_SIZE
  {
    seq(n * SECTOR_SIZE, i requires 0 <= i < n * SECTOR_SIZE => disk[sector + i / SECTOR_SIZE][i % SECTOR_SIZE])
  }

  lemma BlocksExtend(disk: Disk, sector: nat, n: nat)
    requires HasSectors(disk, sector, n + 1)
    ensures Blocks(disk, sector, n + 1) == Blocks(disk, sector, n) + disk[sector + n]
  {
    assert HasSectors(disk, sector, n);
  }

  lemma BlocksFrame(disk: Disk, disk': Disk, sector: nat, n: nat)
    requires HasSectors(disk, sector, n) && HasSectors(disk', sector, n)
    requires forall i :: sector <= i < sector + n ==> disk[i] == disk'[i]
    ensures Blocks(disk, sector, n) == Blocks(disk', sector, n)
  {
  }

  /** In use first, free last. */
  ghost predicate UsedThenFree(list: seq<Slot>) {
    forall i, j :: 0 <= i < j < |list| && list[j].upage.Some? ==> list[i].upage.Some?
  }

  /** Slots lie on distinct multiples of eight sectors below `next`. */
  ghost predicate DistinctSlots(list: seq<Slot>, next: nat) {
    && (forall i :: 0 <= i < |list| ==> list[i].sector % SECTORS_PER_PAGE == 0 && list[i].sector < next)
    && (forall i, j :: 0 <= i < j < |list| ==> list[i].sector != list[j].sector)
  }

  /** No page has two slots. */
  ghost predicate DistinctPages(list: seq<Slot>) {
    forall i, j :: 0 <= i < j < |list| && list[i].upage.Some? ==> list[i].upage != list[j].upage
  }

  /** Which slot each swapped page is in. */
  ghost function Where(list: seq<Slot>): (w: map<Upage, nat>) {
    if list == [] then map[] else
      var (w, last) := (Where(list[..|list| - 1]), list[|list| - 1]);
      if last.upage.Some? then w[last.upage.value := last.sector] else w
  }

  lemma {:induction false} WhereHolds(list: seq<Slot>)
    requires DistinctPages(list)
    ensures forall p :: p in Where(list) ==> Slot(Where(list)[p], Some(p)) in list
    ensures forall i :: 0 <= i < |list| && list[i].upage.Some? ==>
      list[i].upage.value in Where(list) && Where(list)[list[i].upage.value] == list[i].sector
  {
    if list != [] {
      var rest := list[..|list| - 1];
      assert list == rest + [list[|list| - 1]];
      WhereHolds(rest);
    }
  }

  /** Where is determined by the slots in use. */
  lemma WhereIs(list: seq<Slot>, w: map<Upage, nat>)
    requires DistinctPages(list)
    requires forall p :: p in w ==> Slot(w[p], Some(p)) in list
    requires forall i :: 0 <= i < |list| && list[i].upage.Some? ==> list[i].upage.value in w
    ensures Where(list) == w
  {
    WhereHolds(list);
    var v := Where(list);
    forall p | p in w
      ensures p in v && v[p] == w[p]
    {
      var i :| 0 <= i < |list| && list[i] == Slot(w[p], Some(p));
    }
    forall p | p in v
      ensures p in w
    {
      var i :| 0 <= i < |list| && list[i] == Slot(v[p], Some(p));
    }
  }

  lemma WherePush(s: nat, p: Upage, rest: seq<Slot>)
    requires DistinctPages(rest) && p !in Where(rest)
    ensures DistinctPages([Slot(s, Some(p))] + rest)
    ensures Where([Slot(s, Some(p))] + rest) == Where(rest)[p := s]
  {
    var list := [Slot(s, Some(p))] + rest;
    assert forall i :: 0 < i < |list| ==> list[i] == rest[i - 1];
    assert forall x :: x in rest ==> x in list;
    assert list[0] in list;
    WhereHolds(rest);
    WhereIs(list, Where(rest)[p := s]);
  }

  /** There are at most as many pages as slots, and as many exactly when no slot is free. */
  lemma {:induction false} WhereCount(list: seq<Slot>)
    requires DistinctPages(list)
    ensures |Where(list)| <= |list|
    ensures |Where(list)| == |list| <==> forall i :: 0 <= i < |list| ==> list[i].upage.Some?
  {
    if list != [] {
      var rest, last := list[..|list| - 1], list[|list| - 1];
      assert DistinctPages(rest);
      WhereCount(rest);
      WhereHolds(rest);
      if last.upage.Some? {
        assert last.upage.value !in Where(rest);
      }
      assert forall i :: 0 <= i < |rest| ==> list[i] == rest[i];
    }
  }

  /** The list once the slot at k has been freed and rotated to the back. */
  function Rotated(list: seq<Slot>, k: nat): (r: seq<Slot>)
    requires k < |list|
    ensures |r| == |list|
  {
    seq(|list|, i requires 0 <= i < |list| =>
      if i < k then list[i] else if i < |list| - 1 then list[i + 1] else Slot(list[k].sector, None))
  }

  lemma RotatedKeeps(list: seq<Slot>, k: nat, next: nat)
    requires k < |list| && list[k].upage.Some?
    requires UsedThenFree(list) && DistinctSlots(list, next) && DistinctPages(list)
    ensures UsedThenFree(Rotated(list, k)) && DistinctSlots(Rotated(list, k), next) && DistinctPages(Rotated(list, k))
  {
  }

  lemma RotatedHas(list: seq<Slot>, k: nat, i: nat)
    requires k < |list| && i < |list| && i != k
    ensures list[i] in Rotated(list, k)
  {
    assert Rotated(list, k)[if i < k then i else i - 1] == list[i];
  }

  lemma RotatedFrom(list: seq<Slot>, k: nat, i: nat)
    requires k < |list| && i < |list| && Rotated(list, k)[i].upage.Some? && DistinctPages(list) && list[k].upage.Some?
    ensures Rotated(list, k)[i] in list && Rotated(list, k)[i].upage != list[k].upage
  {
    assert Rotated(list, k)[i] == list[if i < k then i else i + 1];
  }

  lemma WhereRotated(list: seq<Slot>, k: nat)
    requires k < |list| && list[k].upage.Some? && DistinctPages(list) && DistinctPages(Rotated(list, k))
    ensures Where(Rotated(list, k)) == Where(list) - {list[k].upage.value}
  {
    var r, w := Rotated(list, k), Where(list) - {list[k].upage.value};
    WhereHolds(list);
    forall p | p in w
      ensures Slot(w[p], Some(p)) in r
    {
      var i :| 0 <= i < |list| && list[i] == Slot(w[p], Some(p));
      RotatedHas(list, k, i);
    }
    forall i | 0 <= i < |r| && r[i].upage.Some?
      ensures r[i].upage.value in w
    {
      RotatedFrom(list, k, i);
      var j :| 0 <= j < |list| && list[j] == r[i];
    }
    WhereIs(r, w);
  }

  ghost predicate Covers(disk: Disk, size: nat) {
    forall s :: 0 <= s < size ==> s in disk && |disk[s]| == SECTOR_SIZE
  }

  /** The slot list between two operations. */
  ghost predicate GoodList(list: seq<Slot>, next: nat, size: nat) {
    && size % SECTORS_PER_PAGE == 0 && next % SECTORS_PER_PAGE == 0 && next <= size
    && UsedThenFree(list) && DistinctSlots(list, next) && DistinctPages(list)
  }

  lemma SlotFits(list: seq<Slot>, next: nat, size: nat, i: nat)
    requires GoodList(list, next, size) && i < |list|
    ensures list[i].sector + SECTORS_PER_PAGE <= size
  {
  }

  /** The pages in swap and their bytes. */
  ghost function SavedIn(list: seq<Slot>, disk: Disk, next: nat, size: nat): (m: map<Upage, seq<Byte>>)
    requires GoodList(list, next, size) && Covers(disk, size)
  {
    var w := Where(list);
    map p | p in w :: SlotOf(list, next, size, p); Blocks(disk, w[p], SECTORS_PER_PAGE)
  }

  lemma SlotOf(list: seq<Slot>, next: nat, size: nat, p: Upage)
    requires GoodList(list, next, size) && p in Where(list)
    ensures var s := Where(list)[p]; s % SECTORS_PER_PAGE == 0 && s < next && s + SECTORS_PER_PAGE <= size
  {
    WhereHolds(list);
    var i :| 0 <= i < |list| && list[i] == Slot(Where(list)[p], Some(p));
    SlotFits(list, next, size, i);
  }

  lemma PushKeepsGood(list: seq<Slot>, next: nat, size: nat, sector: nat, page: Upage)
    requires GoodList(list, next, size) && sector % SECTORS_PER_PAGE == 0 && sector < next && page !in Where(list)
    requires forall i :: 0 <= i < |list| ==> list[i].sector != sector
    ensures GoodList([Slot(sector, Some(page))] + list, next, size)
  {
    WherePush(sector, page, list);
    var l := [Slot(sector, Some(page))] + list;
    assert UsedThenFree(l) && DistinctSlots(l, next) by {
      assert forall i :: 0 < i < |l| ==> l[i] == list[i - 1];
    }
  }

  /** Two different slots share no sector, so writing one leaves the other's page alone. */
  lemma OtherSlotKept(list: seq<Slot>, disk: Disk, disk': Disk, next: nat, size: nat, sector: nat, p: Upage)
    requires GoodList(list, next, size) && Covers(disk, size) && Covers(disk', size)
    requires sector % SECTORS_PER_PAGE == 0 && sector < next && p in Where(list)
    requires forall i :: 0 <= i < |list| ==> list[i].sector != sector
    requires forall s :: 0 <= s < size && !(sector <= s < sector + SECTORS_PER_PAGE) ==> disk'[s] == disk[s]
    ensures Where(list)[p] + SECTORS_PER_PAGE <= size
    ensures Blocks(disk', Where(list)[p], SECTORS_PER_PAGE) == Blocks(disk, Where(list)[p], SECTORS_PER_PAGE)
  {
    SlotOf(list, next, size, p);
    WhereHolds(list);
    var i :| 0 <= i < |list| && list[i] == Slot(Where(list)[p], Some(p));
    SlotsApart(list[i].sector, sector);
    BlocksFrame(disk, disk', list[i].sector, SECTORS_PER_PAGE);
  }

  lemma SlotsApart(a: nat, b: nat)
    requires a % SECTORS_PER_PAGE == 0 && b % SECTORS_PER_PAGE == 0 && a != b
    ensures a + SECTORS_PER_PAGE <= b || b + SECTORS_PER_PAGE <= a
  {
  }

  lemma SavedPush(list: seq<Slot>, disk: Disk, disk': Disk, next: nat, size: nat, sector: nat, page: Upage)
    requires GoodList(list, next, size) && Covers(disk, size) && Covers(disk', size)
    requires sector % SECTORS_PER_PAGE == 0 && sector < next && page !in Where(list)
    requires forall i :: 0 <= i < |list| ==> list[i].sector != sector
    requires forall s :: 0 <= s < size && !(sector <= s < sector + SECTORS_PER_PAGE) ==> disk'[s] == disk[s]
    ensures var l := [Slot(sector, Some(page))] + list;
            GoodList(l, next, size) && Where(l) == Where(list)[page := sector] &&
            SavedIn(l, disk', next, size) ==
            SavedIn(list, disk, next, size)[page := Blocks(disk', sector, SECTORS_PER_PAGE)]
  {
    PushKeepsGood(list, next, size, sector, page);
    WherePush(sector, page, list);
    var l := [Slot(sector, Some(page))] + list;
    var m, n := SavedIn(l, disk', next, size), SavedIn(list, disk, next, size);
    SavedKeys(l, disk', next, size);
    SavedKeys(list, disk, next, size);
    SavedAt(l, disk', next, size, page);
    forall p | p in n && p != page
      ensures p in m && m[p] == n[p]
    {
      SavedAt(l, disk', next, size, p);
      SavedAt(list, disk, next, size, p);
      OtherSlotKept(list, disk, disk', next, size, sector, p);
    }
    MapUpdated(m, n, page, Blocks(disk', sector, SECTORS_PER_PAGE));
  }

  lemma MapUpdated<K, V>(m: map<K, V>, n: map<K, V>, k: K, v: V)
    requires m.Keys == n.Keys + {k} && k in m && m[k] == v
    requires forall x :: x in n && x != k ==> x in m && m[x] == n[x]
    ensures m == n[k := v]
  {
  }

  lemma SavedKeys(list: seq<Slot>, disk: Disk, next: nat, size: nat)
    requires GoodList(list, next, size) && Covers(disk, size)
    ensures SavedIn(list, disk, next, size).Keys == Where(list).Keys
  {
  }

  lemma SavedAt(list: seq<Slot>, disk: Disk, next: nat, size: nat, p: Upage)
    requires GoodList(list, next, size) && Covers(disk, size) && p in Where(list)
    ensures Where(list)[p] + SECTORS_PER_PAGE <= size
    ensures SavedIn(list, disk, next, size)[p] == Blocks(disk, Where(list)[p], SECTORS_PER_PAGE)
  {
    SlotOf(list, next, size, p);
  }

  lemma SavedRotated(list: seq<Slot>, disk: Disk, next: nat, size: nat, k: nat)
    requires GoodList(list, next, size) && Covers(disk, size) && k < |list| && list[k].upage.Some?
    ensures var l, p := Rotated(list, k), list[k].upage.value;
            GoodList(l, next, size) && Where(l) == Where(list) - {p} &&
            SavedIn(l, disk, next, size) == SavedIn(list, disk, next, size) - {p}
  {
    RotatedKeeps(list, k, next);
    WhereRotated(list, k);
  }

  class SwapTable {
    var list: seq<Slot>
    var next: nat
    var disk: Disk
    const size: nat

    /** The table between two operations; the swap disk holds whole pages. */
    ghost predicate Valid()
      reads this
    {
      && GoodList(list, next, size) && Covers(disk, size)
      && |list| * SECTORS_PER_PAGE == next
    }

    ghost function Saved(): (m: map<Upage, seq<Byte>>)
      requires Valid()
      reads this
    {
      SavedIn(list, disk, next, size)
    }

    lemma SavedPages(p: Upage)
      requires Valid()
      ensures Saved().Keys == Where(list).Keys
      ensures p in Saved() ==> IsPage(Saved()[p])
    {
    }

    /** Every slot the disk can hold is in use. */
    ghost predicate Full()
      reads this
    {
      next == size && forall i :: 0 <= i < |list| ==> list[i].upage.Some?
    }

    /** Swap is full when the pages in it take all of the disk. */
    lemma FullIs()
      requires Valid()
      ensures Full() <==> |Where(list)| * SECTORS_PER_PAGE == size
    {
      WhereCount(list);
    }

    /** A disk without sectors is always full. */
    lemma NoSlots()
      requires Valid() && size == 0
      ensures Full()
    {
    }

    constructor (size: nat, disk: Disk)
      requires size % SECTORS_PER_PAGE == 0
      requires forall s :: 0 <= s < size ==> s in disk && |disk[s]| == SECTOR_SIZE
      ensures Valid() && list == [] && Saved() == map[] && this.size == size
    {
      this.size := size;
      this.disk := disk;
      list, next := [], 0;
    }

    /** Copies a page out to a slot, one sector at a time. */
    method WriteSwap(sector: nat, page: seq<Byte>)
      requires IsPage(page) && HasSectors(disk, sector, SECTORS_PER_PAGE)
      modifies this`disk
      ensures disk.Keys == old(disk.Keys) && HasSectors(disk, sector, SECTORS_PER_PAGE)
      ensures Blocks(disk, sector, SECTORS_PER_PAGE) == page
      ensures forall i :: i in old(disk) && !(sector <= i < sector + SECTORS_PER_PAGE) ==> disk[i] == old(disk[i])
    {
      var i := 0;
      while i < SECTORS_PER_PAGE
        invariant 0 <= i <= SECTORS_PER_PAGE
        invariant disk.Keys == old(disk.Keys)
        invariant HasSectors(disk, sector, SECTORS_PER_PAGE)
        invariant forall j :: j in old(disk) && !(sector <= j < sector + i) ==> disk[j] == old(disk[j])
        invariant Blocks(disk, sector, i) == page[..i * SECTOR_SIZE]
      {
        ghost var before := disk;
        disk := disk[sector + i := page[i * SECTOR_SIZE..(i + 1) * SECTOR_SIZE]];
        BlocksFrame(before, disk, sector, i);
        BlocksExtend(disk, sector, i);
        i := i + 1;
      }
      assert page[..PAGE_SIZE] == page;
    }

    /** Copies a slot in, one sector at a time. */
    method ReadSwap(sector: nat) returns (page: seq<Byte>)
      requires HasSectors(disk, sector, SECTORS_PER_PAGE)
      ensures page == Blocks(disk, sector, SECTORS_PER_PAGE)
    {
      page := [];
      var i := 0;
      while i < SECTORS_PER_PAGE
        invariant 0 <= i <= SECTORS_PER_PAGE && page == Blocks(disk, sector, i)
      {
        BlocksExtend(disk, sector, i);
        page := page + disk[sector + i];
        i := i + 1;
      }
    }

    /** The table while the slot at `sector` is off the list. */
    ghost predicate Holding(sector: nat)
      reads this
    {
      && GoodList(list, next, size) && Covers(disk, size)
      && (|list| + 1) * SECTORS_PER_PAGE == next
      && sector % SECTORS_PER_PAGE == 0 && sector < next
      && (forall i :: 0 <= i < |list| ==> list[i].sector != sector)
    }

    /** Takes a free slot off the list or carves a new one off the disk; fails exactly when every slot is in use. */
    method GetFreeSlot() returns (sector: Option<nat>)
      requires Valid()
      modifies this`list, this`next
      ensures sector.None? <==> old(Full())
      ensures sector.None? ==> list == old(list) && next == old(next)
      ensures sector.Some? ==> Holding(sector.value) && Where(list) == old(Where(list))
    {
      if list != [] && list[|list| - 1].upage.None? {
        sector := Some(list[|list| - 1].sector);
        list := list[..|list| - 1];
      } else if next < size {
        sector := Some(next);
        next := next + SECTORS_PER_PAGE;
      } else {
        sector := None;
      }
    }

    /** Saves a page that is not in swap; fails exactly when every slot is in use. */
    method PushToSwap(page: Upage, bytes: seq<Byte>) returns (sector: Option<nat>)
      requires Valid() && page !in Saved() && IsPage(bytes)
      modifies this
      ensures Valid()
      ensures sector.None? <==> old(Full())
      ensures sector.None? ==> Saved() == old(Saved()) && Where(list) == old(Where(list))
      ensures sector.Some? ==> Saved() == old(Saved())[page := bytes]
      ensures sector.Some? ==> Where(list) == old(Where(list))[page := sector.value]
    {
      sector := GetFreeSlot();
      if sector.Some? {
        ghost var before := disk;
        WriteSwap(sector.value, bytes);
        SavedPush(list, before, disk, next, size, sector.value, page);
        list := [Slot(sector.value, Some(page))] + list;
      }
    }

    /** The slot that holds `page`, by walking the list. */
    method GetSwappedPage(page: Upage) returns (k: Option<nat>)
      ensures k.Some? ==> k.value < |list| && list[k.value].upage == Some(page)
      ensures k.None? ==> forall i :: 0 <= i < |list| ==> list[i].upage != Some(page)
    {
      var i := 0;
      while i < |list|
        invariant 0 <= i <= |list|
        invariant forall j :: 0 <= j < i ==> list[j].upage != Some(page)
      {
        if list[i].upage == Some(page) {
          return Some(i);
        }
        i := i + 1;
      }
      k := None;
    }

    /** Discards the page in the slot at list position k. */
    method FreeSwap(k: nat)
      requires Valid() && k < |list| && list[k].upage.Some?
      modifies this`list
      ensures Valid()
      ensures Saved() == old(Saved()) - {old(list[k].upage.value)}
      ensures Where(list) == old(Where(list)) - {old(list[k].upage.value)}
    {
      SavedRotated(list, disk, next, size, k);
      list := list[..k] + list[k + 1..] + [Slot(list[k].sector, None)];
      assert list == Rotated(old(list), k);
    }

    /** The slot of a page that goes, if it has one, is free again. */
    method ForgetPage(page: Upage)
      requires Valid()
      modifies this`list
      ensures Valid() && Saved() == old(Saved()) - {page} && Where(list) == old(Where(list)) - {page}
    {
      WhereHolds(list);
      SavedPages(page);
      var k := GetSwappedPage(page);
      if k.Some? {
        FreeSwap(k.value);
      } else {
        assert page !in Where(list);
      }
    }

    /** Brings a page back and recycles its slot; a page that is not in swap changes nothing. */
    method PullFromSwap(page: Upage) returns (bytes: Option<seq<Byte>>)
      requires Valid()
      modifies this`list
      ensures Valid()
      ensures bytes == if page in old(Saved()) then Some(old(Saved())[page]) else None
      ensures Saved() == old(Saved()) - {page} && Where(list) == old(Where(list)) - {page}
    {
      WhereHolds(list);
      var k := GetSwappedPage(page);
      if k.None? {
        bytes := None;
      } else {
        SlotFits(list, next, size, k.value);
        var b := ReadSwap(list[k.value].sector);
        assert b == Saved()[page];
        bytes := Some(b);
        FreeSwap(k.value);
      }
    }
  }
}
