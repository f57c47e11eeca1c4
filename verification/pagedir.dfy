/**
 * Two-level page tables (userprog/pagedir.c, threads/pte.h, threads/vaddr.h). Entries have the format of section 3.7.6,
 * "Page-Directory and Page-Table Entries", of the IA-32 Intel Architecture Software Developer's Manual, volume 3A.
 */
module PageTable {
  import opened Definitions
  import opened Wrappers

  const ENTRIES: nat := 1024
  const VIRTUAL_LIMIT: nat := 0x1_0000_0000

  // ---- entries: a frame number in bits 12 to 31, flags in bits 0 to 11 ----

  const FLAGS: nat := 12

  /** The low twelve bits of an entry, bit 0 first. */
  type Flags = f: seq<bool> | |f| == FLAGS
    witness [false, false, false, false, false, false, false, false, false, false, false, false]

  datatype Entry = Entry(frame: nat, flags: Flags)

  /** Flags by the number of their bit. */
  const PTE_P: nat := 0
  const PTE_W: nat := 1
  const PTE_U: nat := 2
  const PTE_A: nat := 5
  const PTE_D: nat := 6

  const NO_FLAGS: Flags := [false, false, false, false, false, false, false, false, false, false, false, false]
  const ZERO: Entry := Entry(0, NO_FLAGS)

  predicate Has(e: Entry, flag: nat)
    requires flag < FLAGS
  {
    e.flags[flag]
  }

  function With(e: Entry, flag: nat): Entry
    requires flag < FLAGS
  {
    e.(flags := e.flags[flag := true])
  }

  function Without(e: Entry, flag: nat): Entry
    requires flag < FLAGS
  {
    e.(flags := e.flags[flag := false])
  }

  // ---- entries as 32-bit words ----

  /** The number with the given low bits, bit 0 first, under the number hi. */
  function Pack(low: seq<bool>, hi: nat): nat {
    if low == [] then hi else (if low[0] then 1 else 0) + 2 * Pack(low[1..], hi)
  }

  /** Bit k of a word. */
  predicate Bit(w: nat, k: nat) {
    if k == 0 then w % 2 == 1 else Bit(w / 2, k - 1)
  }

  /** A word shifted right by n. */
  function ShiftRight(w: nat, n: nat): nat {
    if n == 0 then w else ShiftRight(w / 2, n - 1)
  }

  function Word(e: Entry): nat {
    Pack(e.flags, e.frame)
  }

  lemma {:induction false} PackBits(low: seq<bool>, hi: nat, k: nat)
    requires k < |low|
    ensures Bit(Pack(low, hi), k) == low[k]
  {
    if k > 0 {
      PackBits(low[1..], hi, k - 1);
    }
  }

  lemma {:induction false} PackAbove(low: seq<bool>, hi: nat)
    ensures ShiftRight(Pack(low, hi), |low|) == hi
  {
    if low != [] {
      PackAbove(low[1..], hi);
    }
  }

  /** The word of an entry has the frame from bit 12 on and each flag at its bit, so it determines the entry. */
  lemma WordFormat(e: Entry, k: nat)
    ensures ShiftRight(Word(e), FLAGS) == e.frame
    ensures k < FLAGS ==> Bit(Word(e), k) == Has(e, k)
  {
    PackAbove(e.flags, e.frame);
    if k < FLAGS {
      PackBits(e.flags, e.frame, k);
    }
  }

  /** Setting or clearing one flag changes that bit of the word and no other. */
  lemma FlagChanges(e: Entry, flag: nat, k: nat)
    requires flag < FLAGS && k < FLAGS
    ensures Bit(Word(With(e, flag)), k) == (k == flag || Bit(Word(e), k))
    ensures Bit(Word(Without(e, flag)), k) == (k != flag && Bit(Word(e), k))
    ensures ShiftRight(Word(With(e, flag)), FLAGS) == ShiftRight(Word(Without(e, flag)), FLAGS) == ShiftRight(Word(e), FLAGS)
  {
    WordFormat(e, k);
    WordFormat(With(e, flag), k);
    WordFormat(Without(e, flag), k);
  }

  // ---- addresses ----

  type Address = a: nat | a < VIRTUAL_LIMIT witness 0

  predicate IsUser(va: Address) {
    va < PHYS_BASE
  }

  function PgOfs(va: Address): nat { va % PAGE_SIZE }
  function PgNo(va: Address): nat { va / PAGE_SIZE }
  function PtNo(va: Address): nat { (va / PAGE_SIZE) % ENTRIES }
  function PdNo(va: Address): nat { va / (PAGE_SIZE * ENTRIES) }

  /** The two indexes together are the page number. */
  lemma Indexes(va: Address)
    ensures PdNo(va) == PgNo(va) / ENTRIES < ENTRIES && PtNo(va) == PgNo(va) % ENTRIES < ENTRIES
  {
  }

  /** The frame of the page at a kernel address, and the kernel address of a frame. */
  function Vtop(va: Address): nat
    requires va >= PHYS_BASE
  {
    va - PHYS_BASE
  }

  function Ptov(pa: nat): Address
    requires pa < VIRTUAL_LIMIT - PHYS_BASE
  {
    pa + PHYS_BASE
  }

  function FrameOf(kpage: Address): nat
    requires kpage >= PHYS_BASE
  {
    Vtop(kpage) / PAGE_SIZE
  }

  const FRAMES: nat := 0x4_0000   // frames that the kernel's window can hold

  function PdeCreate(frame: nat): (e: Entry)
    ensures e.frame == frame && Has(e, PTE_P) && e != ZERO
  {
    assert !Has(ZERO, PTE_P);
    With(With(With(Entry(frame, NO_FLAGS), PTE_U), PTE_P), PTE_W)
  }

  function PteCreateUser(kpage: Address, writable: bool): Entry
    requires kpage >= PHYS_BASE
  {
    var readable := With(Entry(FrameOf(kpage), NO_FLAGS), PTE_P);
    With(if writable then With(readable, PTE_W) else readable, PTE_U)
  }

  /** What a user entry says: present, usable by the user, writable as asked, clean and not accessed. */
  lemma PteCreateMeans(kpage: Address, writable: bool)
    requires kpage >= PHYS_BASE
    ensures var e := PteCreateUser(kpage, writable);
            Has(e, PTE_P) && Has(e, PTE_U) && (Has(e, PTE_W) <==> writable) && !Has(e, PTE_D) && !Has(e, PTE_A)
  {
  }

  lemma PackStep(e: Entry, k: nat)
    requires k < FLAGS
    ensures Pack(e.flags[k..], e.frame) == (if e.flags[k] then 1 else 0) + 2 * Pack(e.flags[k + 1..], e.frame)
  {
    assert e.flags[k..][1..] == e.flags[k + 1..];
  }

  /** The word of an entry, in numbers, where only the flags that the kernel uses are set. */
  lemma WordIs(e: Entry)
    requires forall k :: 0 <= k < FLAGS && e.flags[k] ==> k == 0 || k == 1 || k == 2 || k == 5 || k == 6
    ensures Word(e) == 0x1000 * e.frame + (if e.flags[0] then 1 else 0) + (if e.flags[1] then 2 else 0)
                       + (if e.flags[2] then 4 else 0) + (if e.flags[5] then 0x20 else 0) + (if e.flags[6] then 0x40 else 0)
  {
    hide Pack;
    LowSix(e);
    HighSix(e);
  }

  lemma LowSix(e: Entry)
    requires !e.flags[3] && !e.flags[4]
    ensures Word(e) == (if e.flags[0] then 1 else 0) + (if e.flags[1] then 2 else 0) + (if e.flags[2] then 4 else 0)
                       + (if e.flags[5] then 0x20 else 0) + 0x40 * Pack(e.flags[6..], e.frame)
  {
    hide Pack;
    PackStep(e, 0);
    PackStep(e, 1);
    PackStep(e, 2);
    PackStep(e, 3);
    PackStep(e, 4);
    PackStep(e, 5);
    assert e.flags[0..] == e.flags;
  }

  lemma HighSix(e: Entry)
    requires forall k :: 6 < k < FLAGS ==> !e.flags[k]
    ensures Pack(e.flags[6..], e.frame) == (if e.flags[6] then 1 else 0) + 0x40 * e.frame
  {
    hide Pack;
    PackStep(e, 6);
    PackStep(e, 7);
    PackStep(e, 8);
    PackStep(e, 9);
    PackStep(e, 10);
    PackStep(e, 11);
    PackNone(e);
  }

  lemma PackNone(e: Entry)
    ensures Pack(e.flags[12..], e.frame) == e.frame
  {
  }

  /** The words that are made: the physical address of the page, and the bits for present, writable and user. */
  lemma CreatedWords(kpage: Address, writable: bool, frame: nat)
    requires kpage >= PHYS_BASE && kpage % PAGE_SIZE == 0
    ensures Word(PteCreateUser(kpage, writable)) == kpage - 0xC000_0000 + 5 + (if writable then 2 else 0)
    ensures Word(PdeCreate(frame)) == 0x1000 * frame + 7
    ensures var e := PteCreateUser(kpage, writable);
            && Word(With(e, PTE_A)) == Word(e) + 0x20 && Word(With(e, PTE_D)) == Word(e) + 0x40
            && Word(Without(e, PTE_P)) == Word(e) - 1
  {
    hide Word;
    var e := PteCreateUser(kpage, writable);
    WordIs(e);
    WordIs(PdeCreate(frame));
    WordIs(With(e, PTE_A));
    WordIs(With(e, PTE_D));
    WordIs(Without(e, PTE_P));
  }

  /** Pages of memory that hold directories and tables, by frame. */
  type Memory = map<nat, seq<Entry>>

  /** Every entry of the directory that is not zero leads to a table of its own. */
  ghost predicate DirectoryOk(mem: Memory, pd: nat) {
    && pd in mem
    && (forall f :: f in mem ==> |mem[f]| == ENTRIES)
    && (forall f, i :: f in mem && 0 <= i < ENTRIES ==> mem[f][i].frame < FRAMES)
    && (forall i :: 0 <= i < ENTRIES && mem[pd][i] != ZERO ==> mem[pd][i].frame in mem && mem[pd][i].frame != pd)
    && (forall i, j :: 0 <= i < j < ENTRIES && mem[pd][i] != ZERO && mem[pd][j] != ZERO ==>
          mem[pd][i].frame != mem[pd][j].frame)
  }

  ghost function EntryIn(mem: Memory, pd: nat, v: nat): Entry
    requires DirectoryOk(mem, pd) && v < ENTRIES * ENTRIES
  {
    var pde := mem[pd][v / ENTRIES];
    if pde == ZERO then ZERO else mem[pde.frame][v % ENTRIES]
  }

  /** A page directory of a user process, with the memory pages that hold it and its tables. */
  class PageDirectory {
    const pd: nat                       // the frame of the directory
    var mem: Memory

    ghost predicate Valid()
      reads this
    {
      DirectoryOk(mem, pd)
    }

    /** The entry for virtual page number v, zero where there is no table. */
    ghost function EntryOf(v: nat): Entry
      requires Valid() && v < ENTRIES * ENTRIES
      reads this
    {
      EntryIn(mem, pd, v)
    }

    /** pagedir_create: a copy of the initial directory, in a new page, that maps what the initial one maps. */
    constructor (mem: Memory, init: nat, page: nat)
      requires DirectoryOk(mem, init) && page !in mem
      ensures Valid() && forall v: nat :: v < ENTRIES * ENTRIES ==> EntryOf(v) == EntryIn(mem, init, v)
    {
      this.mem := mem[page := mem[init]];
      pd := page;
    }

    ghost predicate HasTable(v: nat)
      requires Valid() && v < ENTRIES * ENTRIES
      reads this
    {
      mem[pd][v / ENTRIES] != ZERO
    }

    /** lookup_page without creation: where the entry for va is, as a table and an index, if there is a table. */
    method FindEntry(va: Address) returns (pte: Option<(nat, nat)>)
      requires Valid()
      ensures pte.Some? <==> HasTable(PgNo(va))
      ensures pte.Some? ==>
                && pte.value == (mem[pd][PdNo(va)].frame, PtNo(va)) && pte.value.0 in mem
                && mem[pte.value.0][pte.value.1] == EntryOf(PgNo(va))
    {
      Indexes(va);
      if mem[pd][PdNo(va)] == ZERO {
        return None;
      }
      return Some((mem[pd][PdNo(va)].frame, PtNo(va)));
    }

    /**
     * lookup_page with creation of a missing table, in the page `page` that the page allocator gives, if it gives one.
     * No entry changes.
     */
    method EnsureTable(va: Address, page: Option<nat>) returns (ok: bool)
      requires Valid() && IsUser(va) && (page.Some? ==> page.value !in mem && page.value < FRAMES)
      modifies this`mem
      ensures Valid() && forall v :: 0 <= v < ENTRIES * ENTRIES ==> EntryOf(v) == old(EntryOf(v))
      ensures ok <==> HasTable(PgNo(va))
      ensures ok <==> old(HasTable(PgNo(va))) || page.Some?
    {
      Indexes(va);
      if mem[pd][PdNo(va)] == ZERO {
        if page.None? {
          return false;
        }
        NewTable(PdNo(va), page.value);
      }
      return true;
    }

    /** A zeroed table goes in place of a zero directory entry. */
    method NewTable(i: nat, page: nat)
      requires Valid() && i < ENTRIES && mem[pd][i] == ZERO && page !in mem && page < FRAMES
      modifies this`mem
      ensures Valid() && mem[pd][i] == PdeCreate(page)
      ensures forall v :: 0 <= v < ENTRIES * ENTRIES ==> EntryOf(v) == old(EntryOf(v))
    {
      mem := mem[page := seq(ENTRIES, _ => ZERO)][pd := mem[pd][i := PdeCreate(page)]];
      assert forall j :: 0 <= j < ENTRIES && j != i ==> mem[pd][j] == old(mem)[pd][j];
      assert PdeCreate(page) != ZERO;
    }

    /** Writing the entry that lookup_page found changes the entry of that page and of no other. */
    method StoreEntry(va: Address, e: Entry)
      requires Valid() && HasTable(PgNo(va)) && e.frame < FRAMES
      modifies this`mem
      ensures Valid() && forall v :: 0 <= v < ENTRIES * ENTRIES ==> (HasTable(v) <==> old(HasTable(v)))
      ensures forall v :: 0 <= v < ENTRIES * ENTRIES ==> EntryOf(v) == if v == PgNo(va) then e else old(EntryOf(v))
    {
      Indexes(va);
      var t := mem[pd][PdNo(va)].frame;
      mem := mem[t := mem[t][PtNo(va) := e]];
      forall v: nat | v < ENTRIES * ENTRIES
        ensures EntryOf(v) == if v == PgNo(va) then e else old(EntryOf(v))
      {
        assert v / ENTRIES == PdNo(va) && v % ENTRIES == PtNo(va) <==> v == PgNo(va);
      }
    }

    /** pagedir_set_page, for a page that is not mapped. */
    method SetPage(upage: Address, kpage: Address, writable: bool, page: Option<nat>) returns (ok: bool)
      requires Valid() && PgOfs(upage) == 0 && PgOfs(kpage) == 0 && IsUser(upage) && kpage >= PHYS_BASE
      requires page.Some? ==> page.value !in mem && page.value < FRAMES
      requires !Has(EntryOf(PgNo(upage)), PTE_P)
      modifies this`mem
      ensures Valid() && (ok <==> old(HasTable(PgNo(upage))) || page.Some?)
      ensures forall v :: 0 <= v < ENTRIES * ENTRIES ==>
                EntryOf(v) == if ok && v == PgNo(upage) then PteCreateUser(kpage, writable) else old(EntryOf(v))
    {
      ok := EnsureTable(upage, page);
      if ok {
        StoreEntry(upage, PteCreateUser(kpage, writable));
      }
    }

    /** pagedir_get_page: the kernel address of the byte at uaddr, if its page is present. */
    method GetPage(uaddr: Address) returns (r: Option<Address>)
      requires Valid() && IsUser(uaddr)
      ensures EntryOf(PgNo(uaddr)).frame < FRAMES
      ensures r == Translate(EntryOf(PgNo(uaddr)), PgOfs(uaddr))
    {
      var pte := FindEntry(uaddr);
      if pte.Some? && Has(mem[pte.value.0][pte.value.1], PTE_P) {
        r := Some(Ptov(mem[pte.value.0][pte.value.1].frame * PAGE_SIZE) + PgOfs(uaddr));
      } else {
        r := None;
      }
    }

    /**
     * Set, then get: every byte of the page is that byte of the frame, and every other address leads where it led
     * before; so does every address when the page could not be set.
     */
    method SetThenGet(upage: Address, kpage: Address, writable: bool, page: Option<nat>, uaddr: Address)
      returns (ok: bool, r: Option<Address>)
      requires Valid() && PgOfs(upage) == 0 && PgOfs(kpage) == 0 && IsUser(upage) && kpage >= PHYS_BASE
      requires page.Some? ==> page.value !in mem && page.value < FRAMES
      requires !Has(EntryOf(PgNo(upage)), PTE_P) && IsUser(uaddr)
      modifies this`mem
      ensures Valid() && (ok <==> old(HasTable(PgNo(upage))) || page.Some?)
      ensures old(EntryOf(PgNo(uaddr))).frame < FRAMES
      ensures r == if ok && PgNo(uaddr) == PgNo(upage) then Some(kpage + PgOfs(uaddr))
                   else Translate(old(EntryOf(PgNo(uaddr))), PgOfs(uaddr))
    {
      ok := SetPage(upage, kpage, writable, page);
      r := GetPage(uaddr);
      EntryTranslates(kpage, writable, PgOfs(uaddr));
    }

    /** pagedir_clear_page: the page is no longer present, and all else about it and every other page is kept. */
    method ClearPage(upage: Address)
      requires Valid() && IsUser(upage) && PgOfs(upage) == 0
      modifies this`mem
      ensures Valid()
      ensures forall v :: 0 <= v < ENTRIES * ENTRIES ==>
                EntryOf(v) == if v == PgNo(upage) then Without(old(EntryOf(v)), PTE_P) else old(EntryOf(v))
    {
      var pte := FindEntry(upage);
      if pte.Some? && Has(mem[pte.value.0][pte.value.1], PTE_P) {
        StoreEntry(upage, Without(mem[pte.value.0][pte.value.1], PTE_P));
      }
    }

    /** pagedir_is_dirty and pagedir_is_accessed, by the flag they read. */
    method IsFlagged(vpage: Address, flag: nat) returns (r: bool)
      requires Valid() && flag < FLAGS
      ensures r <==> Has(EntryOf(PgNo(vpage)), flag)
    {
      var pte := FindEntry(vpage);
      r := pte.Some? && Has(mem[pte.value.0][pte.value.1], flag);
    }

    /** pagedir_set_dirty and pagedir_set_accessed, by the flag they write; without a table nothing happens. */
    method SetFlag(vpage: Address, flag: nat, on: bool)
      requires Valid() && flag < FLAGS
      modifies this`mem
      ensures Valid()
      ensures forall v :: 0 <= v < ENTRIES * ENTRIES ==>
                EntryOf(v) == if v != PgNo(vpage) || !old(HasTable(v)) then old(EntryOf(v))
                              else if on then With(old(EntryOf(v)), flag)
                              else Without(old(EntryOf(v)), flag)
    {
      var pte := FindEntry(vpage);
      if pte.Some? {
        var e := mem[pte.value.0][pte.value.1];
        StoreEntry(vpage, if on then With(e, flag) else Without(e, flag));
      }
    }
  }

  /** The kernel address that an entry gives for a byte of its page. */
  function Translate(e: Entry, ofs: nat): Option<Address>
    requires e.frame < FRAMES && ofs < PAGE_SIZE
  {
    if Has(e, PTE_P) then Some(Ptov(e.frame * PAGE_SIZE) + ofs) else None
  }

  /** What a new user entry gives for the bytes of its page. */
  lemma EntryTranslates(kpage: Address, writable: bool, ofs: nat)
    requires kpage >= PHYS_BASE && PgOfs(kpage) == 0 && ofs < PAGE_SIZE
    ensures FrameOf(kpage) < FRAMES && Translate(PteCreateUser(kpage, writable), ofs) == Some(kpage + ofs)
  {
    PteCreateMeans(kpage, writable);
  }
}
