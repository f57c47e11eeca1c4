/** Demand paging for one process: frame table, page entries and page faults (vm/frame.c, vm/page.c). */
module Paging {
  import opened Definitions
  import opened Sequences
  import opened Swap
  import opened Wrappers

  /** A physical frame is named by its kernel address. */
  type Kpage = nat

  /** A frame table entry, with the frame's bytes and the dirty and accessed bits that the MMU keeps for the
      kernel's own mapping of it. */
  datatype Frame = Frame(upage: Option<Upage>, pinned: bool, asyncWrite: bool,
                         bytes: seq<Byte>, dirty: bool, accessed: bool)

  /** The hardware entry of a user page. Clearing `present` keeps the other bits. */
  datatype Pte = Pte(present: bool, kpage: Kpage, writable: bool, dirty: bool, accessed: bool)

  /** A supplemental page table entry, with the page's hardware entry. `image` is what the page's file holds for
      it, empty if it has none. */
  datatype PageEntry = PageEntry(frame: Option<Kpage>, swap: Option<nat>, writable: bool, image: seq<Byte>, pte: Pte)

  /** all_frames in list order, its entries, the process's pages, which page directory entries have a table. */
  datatype Vm = Vm(list: seq<Kpage>, frames: map<Kpage, Frame>, pages: map<Upage, PageEntry>, tables: set<nat>)

  const ENTRIES_PER_TABLE: nat := 1024

  function ZeroPage(): (z: seq<Byte>)
    ensures IsPage(z)
  {
    seq(PAGE_SIZE, _ => 0)
  }

  /** What a page holds before anything is written to it. */
  function Initial(image: seq<Byte>): (c: seq<Byte>)
    ensures |image| <= PAGE_SIZE ==> IsPage(c)
    ensures image == [] ==> c == ZeroPage()
  {
    if |image| <= PAGE_SIZE then image + ZeroPage()[|image|..] else image
  }

  /** c starts with the bytes of a file and goes on with zeros. */
  ghost predicate FileThenZeros(c: seq<Byte>, image: seq<Byte>) {
    && |image| <= |c| == PAGE_SIZE && c[..|image|] == image
    && forall i :: |image| <= i < PAGE_SIZE ==> c[i] == 0
  }

  lemma InitialIs(image: seq<Byte>)
    requires |image| <= PAGE_SIZE
    ensures FileThenZeros(Initial(image), image)
  {
    ZeroPageIs();
  }

  lemma ZeroPageIs()
    ensures |ZeroPage()| == PAGE_SIZE && forall i :: 0 <= i < PAGE_SIZE ==> ZeroPage()[i] == 0
  {
  }

  /** The page `e` in frame `f` must reach swap before the frame is reused. */
  predicate NeedsWrite(e: PageEntry, f: Frame) {
    e.pte.dirty || f.dirty || f.asyncWrite
  }

  /** Some mark says that the page in frame k was modified. */
  predicate Marked(v: Vm, k: Kpage) {
    && k in v.frames && v.frames[k].upage.Some? && v.frames[k].upage.value in v.pages
    && NeedsWrite(v.pages[v.frames[k].upage.value], v.frames[k])
  }

  ghost predicate FrameGood(v: Vm, hole: Option<Kpage>, k: Kpage)
    requires k in v.frames
  {
    var f := v.frames[k];
    && IsPage(f.bytes)
    && (f.upage.None? <==> hole == Some(k))
    && (f.upage.Some? ==> f.upage.value in v.pages && v.pages[f.upage.value].frame == Some(k))
  }

  /** The frame list; only `hole` is a frame without a page. */
  ghost predicate FramesGood(v: Vm, hole: Option<Kpage>) {
    && Distinct(v.list)
    && (forall k :: k in v.list <==> k in v.frames)
    && (forall k {:trigger FrameGood(v, hole, k)} :: k in v.frames ==> FrameGood(v, hole, k))
  }

  /** A page that is in memory, mapped and, unless it is still its initial zero fill, marked for writing. */
  ghost predicate Resident(e: PageEntry, k: Kpage, f: Frame) {
    && e.pte.present && e.pte.kpage == k && e.pte.writable == e.writable
    && e.swap.None?
    && (NeedsWrite(e, f) || (f.bytes == ZeroPage() && e.image == []))
  }

  /** A page is resident, or unmapped and in swap, or unmapped and never modified; only `loading` has a frame that
      is not mapped yet. A page with a swap slot was mapped before, so its page table exists. */
  ghost predicate PageGood(v: Vm, w: map<Upage, nat>, loading: Option<Upage>, p: Upage)
    requires p in v.pages
  {
    var e := v.pages[p];
    && |e.image| <= PAGE_SIZE
    && (e.swap == if p in w then Some(w[p]) else None)
    && (e.swap.Some? || e.pte.present ==> p / ENTRIES_PER_TABLE in v.tables)
    && (e.frame.Some? ==> e.frame.value in v.frames && v.frames[e.frame.value].upage == Some(p))
    && (e.frame.Some? && loading != Some(p) ==> Resident(e, e.frame.value, v.frames[e.frame.value]))
    && (e.frame.None? || loading == Some(p) ==> !e.pte.present)
  }

  ghost predicate PagesGood(v: Vm, w: map<Upage, nat>, loading: Option<Upage>) {
    && (forall p :: p in w ==> p in v.pages)
    && (forall p {:trigger PageGood(v, w, loading, p)} :: p in v.pages ==> PageGood(v, w, loading, p))
  }

  ghost predicate Good(v: Vm, w: map<Upage, nat>, hole: Option<Kpage>, loading: Option<Upage>) {
    FramesGood(v, hole) && PagesGood(v, w, loading)
  }

  /** The bytes the process must find in page p. */
  ghost function Content(v: Vm, saved: map<Upage, seq<Byte>>, p: Upage): seq<Byte>
    requires p in v.pages
  {
    var e := v.pages[p];
    if e.pte.present && e.pte.kpage in v.frames then v.frames[e.pte.kpage].bytes
    else if p in saved then saved[p]
    else Initial(e.image)
  }

  /** The process's memory, wherever its pages are. */
  ghost function View(v: Vm, saved: map<Upage, seq<Byte>>): (m: map<Upage, seq<Byte>>) {
    map p | p in v.pages :: Content(v, saved, p)
  }

  // ---- eviction ----

  /** One visit of the clock hand: clear `accessed`, and turn a dirty bit into async_write. */
  function Visited(v: Vm, k: Kpage): Vm
    requires k in v.frames && v.frames[k].upage.Some? && v.frames[k].upage.value in v.pages
  {
    var f, p := v.frames[k], v.frames[k].upage.value;
    var e := v.pages[p];
    v.(pages := v.pages[p := e.(pte := e.pte.(accessed := false, dirty := false))],
       frames := v.frames[k := f.(accessed := false, dirty := false,
                                  asyncWrite := f.asyncWrite || f.dirty || e.pte.dirty)])
  }

  /** A visit loses no mark: what had to be written still has to be, and no byte moves. */
  lemma VisitedGood(v: Vm, w: map<Upage, nat>, k: Kpage)
    requires Good(v, w, None, None) && k in v.frames
    ensures v.frames[k].upage.Some? && v.frames[k].upage.value in v.pages
    ensures Good(Visited(v, k), w, None, None)
  {
    assert FrameGood(v, None, k);
    var u := Visited(v, k);
    forall j | j in u.frames
      ensures FrameGood(u, None, j)
    {
      assert FrameGood(v, None, j);
    }
    forall p | p in u.pages
      ensures PageGood(u, w, None, p)
    {
      assert PageGood(v, w, None, p);
    }
  }

  lemma VisitedView(v: Vm, saved: map<Upage, seq<Byte>>, k: Kpage)
    requires k in v.frames && v.frames[k].upage.Some? && v.frames[k].upage.value in v.pages
    ensures View(Visited(v, k), saved) == View(v, saved)
  {
    forall p | p in v.pages
      ensures Content(Visited(v, k), saved, p) == Content(v, saved, p)
    {
    }
  }

  /** The same frames are marked for writing. */
  ghost predicate SameMarks(v: Vm, u: Vm) {
    forall k {:trigger Marked(v, k)} {:trigger Marked(u, k)} :: Marked(u, k) <==> Marked(v, k)
  }

  /** A visit turns marks into other marks and forgets none. */
  lemma VisitedMarks(v: Vm, k: Kpage)
    requires FramesGood(v, None) && k in v.frames && v.frames[k].upage.Some? && v.frames[k].upage.value in v.pages
    ensures SameMarks(v, Visited(v, k))
  {
    forall j
      ensures Marked(Visited(v, k), j) <==> Marked(v, j)
    {
      assert FrameGood(v, None, k);
      if j in v.frames {
        assert FrameGood(v, None, j);
      }
    }
  }

  /** The frame x places after position `start`, around the list. */
  function At(v: Vm, start: nat, x: nat): Kpage
    requires start < |v.list| && x < |v.list|
  {
    if start + x < |v.list| then v.list[start + x] else v.list[start + x - |v.list|]
  }

  predicate Pinned(v: Vm, k: Kpage) {
    k in v.frames && v.frames[k].pinned
  }

  predicate IsAccessed(v: Vm, k: Kpage) {
    k in v.frames && (v.frames[k].accessed || (v.frames[k].upage.Some? &&
      v.frames[k].upage.value in v.pages && v.pages[v.frames[k].upage.value].pte.accessed))
  }

  predicate IsDirty(v: Vm, k: Kpage) {
    k in v.frames && (v.frames[k].dirty || (v.frames[k].upage.Some? &&
      v.frames[k].upage.value in v.pages && v.pages[v.frames[k].upage.value].pte.dirty))
  }

  predicate IsReadonly(v: Vm, k: Kpage) {
    k in v.frames && v.frames[k].upage.Some? && v.frames[k].upage.value in v.pages &&
    !v.pages[v.frames[k].upage.value].writable
  }

  /** What the first sweep takes: an unpinned frame that is read-only, or neither accessed nor dirty. */
  predicate FirstChoice(v: Vm, k: Kpage) {
    !Pinned(v, k) && (IsReadonly(v, k) || (!IsAccessed(v, k) && !IsDirty(v, k)))
  }

  /** The same, said of the bits: both the frame's kernel address and the process's address count as use. */
  lemma FirstChoiceIs(v: Vm, k: Kpage)
    requires k in v.frames && FrameGood(v, None, k)
    ensures var f := v.frames[k];
            f.upage.Some? && f.upage.value in v.pages &&
            var e := v.pages[f.upage.value];
            FirstChoice(v, k) <==>
              !f.pinned && (!e.writable || !(f.accessed || f.dirty || e.pte.accessed || e.pte.dirty))
  {
  }

  /** Frame k and its page are the same in v and u. */
  ghost predicate SameFrame(v: Vm, u: Vm, k: Kpage) {
    && k in v.frames && k in u.frames && v.frames[k] == u.frames[k]
    && (v.frames[k].upage.Some? ==>
          var p := v.frames[k].upage.value; p in v.pages && p in u.pages && v.pages[p] == u.pages[p])
  }

  ghost predicate FrameButBits(v: Vm, u: Vm, k: Kpage) {
    k in v.frames && k in u.frames &&
    u.frames[k] == v.frames[k].(accessed := u.frames[k].accessed, dirty := u.frames[k].dirty,
                                asyncWrite := u.frames[k].asyncWrite)
  }

  ghost predicate PageButBits(v: Vm, u: Vm, p: Upage) {
    p in v.pages && p in u.pages &&
    u.pages[p] == v.pages[p].(pte := v.pages[p].pte.(accessed := u.pages[p].pte.accessed, dirty := u.pages[p].pte.dirty))
  }

  /** u is v after some visits: only hardware bits and async_write may differ. */
  ghost predicate OnlyBits(v: Vm, u: Vm) {
    && u.list == v.list && u.tables == v.tables && u.frames.Keys == v.frames.Keys && u.pages.Keys == v.pages.Keys
    && (forall k {:trigger FrameButBits(v, u, k)} :: k in v.frames ==> FrameButBits(v, u, k))
    && (forall p {:trigger PageButBits(v, u, p)} :: p in v.pages ==> PageButBits(v, u, p))
  }

  /** Frame k has been visited, its bits are clear, and the first sweep did not want it. */
  ghost predicate Swept(v: Vm, u: Vm, k: Kpage) {
    !IsAccessed(u, k) && !IsDirty(u, k) && !FirstChoice(v, k)
  }

  /** The clock has gone x frames into its sweep number `rev` from `start` without a choice: in the first sweep
      the frames behind it are clean and those ahead are untouched; in the second all are clean and those behind
      are pinned. */
  ghost predicate Sweeping(v: Vm, u: Vm, start: nat, rev: nat, x: nat) {
    && OnlyBits(v, u) && start < |v.list| && x < |v.list| && rev <= 1
    && (forall y :: 0 <= y < (if rev == 0 then x else |v.list|) ==> Swept(v, u, At(v, start, y)))
    && (rev == 0 ==> forall y :: x <= y < |v.list| ==> SameFrame(v, u, At(v, start, y)))
    && (rev == 1 ==> forall y :: 0 <= y < x ==> Pinned(v, At(v, start, y)))
  }

  lemma AtDistinct(v: Vm, start: nat, x: nat, y: nat)
    requires Distinct(v.list) && start < |v.list| && x < |v.list| && y < |v.list| && x != y
    ensures At(v, start, x) != At(v, start, y)
  {
  }

  lemma AtCovers(v: Vm, start: nat, i: nat) returns (x: nat)
    requires start < |v.list| && i < |v.list|
    ensures x < |v.list| && At(v, start, x) == v.list[i]
  {
    x := if i >= start then i - start else i + |v.list| - start;
  }

  lemma VisitedOnlyBits(v: Vm, u: Vm, k: Kpage)
    requires OnlyBits(v, u) && k in u.frames && u.frames[k].upage.Some? && u.frames[k].upage.value in u.pages
    ensures OnlyBits(v, Visited(u, k))
    ensures !IsAccessed(Visited(u, k), k) && !IsDirty(Visited(u, k), k)
  {
    var u' := Visited(u, k);
    forall j | j in v.frames
      ensures FrameButBits(v, u', j)
    {
      assert FrameButBits(v, u, j);
    }
    forall p | p in v.pages
      ensures PageButBits(v, u', p)
    {
      assert PageButBits(v, u, p);
    }
  }

  /** A visit touches no other frame, because no two frames hold the same page. */
  lemma VisitedOthers(v: Vm, u: Vm, k: Kpage, j: Kpage)
    requires FramesGood(u, None) && k in u.frames && j in u.frames && j != k
    requires u.frames[k].upage.Some? && u.frames[k].upage.value in u.pages
    ensures SameFrame(u, Visited(u, k), j)
  {
    assert FrameGood(u, None, k) && FrameGood(u, None, j);
  }

  lemma SameFrameSwept(v: Vm, u: Vm, u': Vm, k: Kpage)
    requires SameFrame(u, u', k)
    ensures Swept(v, u, k) ==> Swept(v, u', k)
    ensures SameFrame(v, u, k) ==> SameFrame(v, u', k)
  {
  }

  lemma SweepFrame(v: Vm, u: Vm, start: nat, x: nat)
    requires OnlyBits(v, u) && FramesGood(v, None) && FramesGood(u, None) && start < |v.list| && x < |v.list|
    ensures var k := At(v, start, x);
            k in u.frames && u.frames[k].upage.Some? && u.frames[k].upage.value in u.pages
  {
    var k := At(v, start, x);
    assert k in u.list;
    assert FrameGood(u, None, k);
  }

  lemma SweepOthers(v: Vm, u: Vm, start: nat, x: nat, y: nat)
    requires OnlyBits(v, u) && FramesGood(v, None) && FramesGood(u, None) && start < |v.list|
    requires x < |v.list| && y < |v.list| && y != x
    ensures var k := At(v, start, x);
            k in u.frames && u.frames[k].upage.Some? && u.frames[k].upage.value in u.pages &&
            SameFrame(u, Visited(u, k), At(v, start, y))
  {
    SweepFrame(v, u, start, x);
    SweepFrame(v, u, start, y);
    AtDistinct(v, start, x, y);
    VisitedOthers(v, u, At(v, start, x), At(v, start, y));
  }

  lemma SweepStep(v: Vm, u: Vm, u': Vm, start: nat, rev: nat, x: nat)
    requires Sweeping(v, u, start, rev, x) && FramesGood(v, None) && FramesGood(u, None)
    requires if rev == 0 then !FirstChoice(v, At(v, start, x)) else Pinned(v, At(v, start, x))
    requires rev == 0 || x + 1 < |v.list|
    requires var k := At(v, start, x);
             k in u.frames && u.frames[k].upage.Some? && u.frames[k].upage.value in u.pages && u' == Visited(u, k)
    ensures if x + 1 < |v.list| then Sweeping(v, u', start, rev, x + 1) else Sweeping(v, u', start, rev + 1, 0)
  {
    var n := |v.list|;
    VisitedOnlyBits(v, u, At(v, start, x));
    forall y | 0 <= y < (if rev == 0 then x + 1 else n)
      ensures Swept(v, u', At(v, start, y))
    {
      if y != x {
        SweepOthers(v, u, start, x, y);
        SameFrameSwept(v, u, u', At(v, start, y));
      }
    }
    if rev == 0 {
      forall y | x + 1 <= y < n
        ensures SameFrame(v, u', At(v, start, y))
      {
        SweepOthers(v, u, start, x, y);
        SameFrameSwept(v, u, u', At(v, start, y));
      }
    }
  }

  /** The chosen page unmapped and its frame cleared; `sector` is where the page went, if it was written. */
  function Evicted(v: Vm, k: Kpage, sector: Option<nat>): Vm
    requires k in v.frames && v.frames[k].upage.Some? && v.frames[k].upage.value in v.pages
  {
    var f, p := v.frames[k], v.frames[k].upage.value;
    var e := v.pages[p];
    v.(pages := v.pages[p := e.(frame := None, swap := if sector.Some? then sector else e.swap,
                                pte := e.pte.(present := false))],
       frames := v.frames[k := Frame(None, false, false, ZeroPage(), true, true)])
  }

  lemma EvictedGood(v: Vm, w: map<Upage, nat>, k: Kpage, sector: Option<nat>)
    requires Good(v, w, None, None) && k in v.frames
    ensures v.frames[k].upage.Some? && v.frames[k].upage.value in v.pages && v.frames[k].upage.value !in w
    ensures var w' := if sector.Some? then w[v.frames[k].upage.value := sector.value] else w;
            Good(Evicted(v, k, sector), w', Some(k), None)
  {
    assert FrameGood(v, None, k);
    var p := v.frames[k].upage.value;
    assert PageGood(v, w, None, p);
    var u, w' := Evicted(v, k, sector), if sector.Some? then w[p := sector.value] else w;
    forall j | j in u.frames
      ensures FrameGood(u, Some(k), j)
    {
      assert FrameGood(v, None, j);
    }
    forall q | q in u.pages
      ensures PageGood(u, w', None, q)
    {
      assert PageGood(v, w, None, q);
    }
  }

  /** The memory after frame k is emptied: a page that had to be written and could not is its initial image again. */
  ghost function AfterEviction(v: Vm, m: map<Upage, seq<Byte>>, k: Kpage, full: bool): map<Upage, seq<Byte>> {
    if full && Marked(v, k) then
      m[v.frames[k].upage.value := Initial(v.pages[v.frames[k].upage.value].image)]
    else
      m
  }

  /** What a frame holds is what its page must hold; unmarked, that is still the initial image. */
  lemma FrameContent(v: Vm, w: map<Upage, nat>, saved: map<Upage, seq<Byte>>, k: Kpage)
    requires Good(v, w, None, None) && k in v.frames && saved.Keys == w.Keys
    ensures v.frames[k].upage.Some? && v.frames[k].upage.value in v.pages && v.frames[k].upage.value !in saved
    ensures IsPage(v.frames[k].bytes)
    ensures Content(v, saved, v.frames[k].upage.value) == v.frames[k].bytes
    ensures !Marked(v, k) ==> v.frames[k].bytes == Initial(v.pages[v.frames[k].upage.value].image)
  {
    assert FrameGood(v, None, k);
    assert PageGood(v, w, None, v.frames[k].upage.value);
  }

  /** Emptying a frame touches no other page. */
  lemma EvictedOthers(v: Vm, w: map<Upage, nat>, saved: map<Upage, seq<Byte>>, k: Kpage, sector: Option<nat>, q: Upage)
    requires Good(v, w, None, None) && k in v.frames && v.frames[k].upage.Some? && v.frames[k].upage.value in v.pages
    requires q in v.pages && q != v.frames[k].upage.value
    ensures Content(Evicted(v, k, sector), saved, q) == Content(v, saved, q)
  {
    assert PageGood(v, w, None, q);
  }

  /** The page of an emptied frame is in swap, or its initial image. */
  lemma EvictedSelf(v: Vm, saved: map<Upage, seq<Byte>>, k: Kpage, sector: Option<nat>)
    requires k in v.frames && v.frames[k].upage.Some? && v.frames[k].upage.value in v.pages
    ensures var p := v.frames[k].upage.value;
            && Evicted(v, k, sector).pages.Keys == v.pages.Keys
            && Content(Evicted(v, k, sector), saved, p) == if p in saved then saved[p] else Initial(v.pages[p].image)
  {
  }

  /** Dropping a page keeps the process's view if the page was written to swap or needed no writing. */
  lemma EvictedView(v: Vm, w: map<Upage, nat>, saved: map<Upage, seq<Byte>>, k: Kpage, sector: Option<nat>)
    requires Good(v, w, None, None) && k in v.frames && saved.Keys == w.Keys
    ensures v.frames[k].upage.Some? && v.frames[k].upage.value in v.pages
    ensures var p := v.frames[k].upage.value;
            var saved' := if sector.Some? then saved[p := v.frames[k].bytes] else saved;
            View(Evicted(v, k, sector), saved') == AfterEviction(v, View(v, saved), k, sector.None?)
  {
    hide Good, Content, Initial, Evicted, NeedsWrite;
    FrameContent(v, w, saved, k);
    var p := v.frames[k].upage.value;
    var u, saved' := Evicted(v, k, sector), if sector.Some? then saved[p := v.frames[k].bytes] else saved;
    EvictedSelf(v, saved', k, sector);
    forall q | q in v.pages && q != p
      ensures Content(u, saved', q) == Content(v, saved, q)
    {
      EvictedOthers(v, w, saved, k, sector, q);
      SavedElsewhere(Evicted(v, k, sector), saved, saved', q);
    }
  }

  lemma SavedElsewhere(v: Vm, saved: map<Upage, seq<Byte>>, saved': map<Upage, seq<Byte>>, q: Upage)
    requires q in v.pages && (q in saved <==> q in saved') && (q in saved ==> saved'[q] == saved[q])
    ensures Content(v, saved', q) == Content(v, saved, q)
  {
  }

  /** Emptying a frame changes no list and no page but its own. */
  lemma EvictedRest(v: Vm, k: Kpage, sector: Option<nat>)
    requires FramesGood(v, None) && k in v.frames
    ensures v.frames[k].upage.Some? && v.frames[k].upage.value in v.pages
    ensures var u := Evicted(v, k, sector);
            && u.list == v.list && u.tables == v.tables && SameNonresident(v, u) && NoNewPins(v, u)
            && u.frames.Keys == v.frames.Keys && u.frames[k] == Frame(None, false, false, ZeroPage(), true, true)
  {
    assert FrameGood(v, None, k);
    var u := Evicted(v, k, sector);
    forall j | Pinned(u, j)
      ensures Pinned(v, j)
    {
    }
  }

  /**
   * What emptying frame k does to swap and to the memory: a marked page goes to swap unless that is full, and then it is
   * lost if it differs from its initial image; an unmarked page still is its initial image.
   */
  ghost predicate EvictedTo(v: Vm, saved: map<Upage, seq<Byte>>, m: map<Upage, seq<Byte>>, k: Kpage, full: bool,
                            saved': map<Upage, seq<Byte>>, m': map<Upage, seq<Byte>>)
  {
    && k in v.frames && v.frames[k].upage.Some? && v.frames[k].upage.value in v.pages
    && var f := v.frames[k];
       var p, initial := f.upage.value, Initial(v.pages[f.upage.value].image);
       && saved' == (if Marked(v, k) && !full then saved[p := f.bytes] else saved)
       && (p in saved' <==> Marked(v, k) && !full)
       && (!Marked(v, k) ==> f.bytes == initial)
       && m' == AfterEviction(v, m, k, full)
       && (m' == m <==> !(full && Marked(v, k) && f.bytes != initial))
  }

  lemma EvictedExactly(v: Vm, w: map<Upage, nat>, saved: map<Upage, seq<Byte>>, k: Kpage, sector: Option<nat>, full: bool)
    requires Good(v, w, None, None) && k in v.frames && saved.Keys == w.Keys
    requires sector.Some? <==> Marked(v, k) && !full
    ensures v.frames[k].upage.Some? && v.frames[k].upage.value in v.pages
    ensures var saved' := if sector.Some? then saved[v.frames[k].upage.value := v.frames[k].bytes] else saved;
            EvictedTo(v, saved, View(v, saved), k, full, saved', View(Evicted(v, k, sector), saved'))
  {
    hide Good, Initial, NeedsWrite, Evicted, Content;
    FrameContent(v, w, saved, k);
    EvictedView(v, w, saved, k, sector);
    var p := v.frames[k].upage.value;
    assert View(v, saved)[p] == v.frames[k].bytes;
  }

  /** Bits apart, it does not matter when the eviction is looked at. */
  lemma AfterEvictionKept(v: Vm, u: Vm, m: map<Upage, seq<Byte>>, k: Kpage, full: bool)
    requires OnlyBits(v, u) && SameMarks(v, u)
    ensures AfterEviction(u, m, k, full) == AfterEviction(v, m, k, full)
  {
    if Marked(v, k) {
      assert FrameButBits(v, u, k) && PageButBits(v, u, v.frames[k].upage.value);
    }
  }

  // ---- loading ----

  /** A fresh frame at the end of the list, cleared by the page allocator. */
  function WithFrame(v: Vm, k: Kpage): Vm {
    v.(list := v.list + [k], frames := v.frames[k := Frame(None, false, false, ZeroPage(), true, true)])
  }

  lemma WithFrameGood(v: Vm, w: map<Upage, nat>, saved: map<Upage, seq<Byte>>, k: Kpage)
    requires Good(v, w, None, None) && k !in v.frames
    ensures Good(WithFrame(v, k), w, Some(k), None)
    ensures View(WithFrame(v, k), saved) == View(v, saved)
  {
    var u := WithFrame(v, k);
    assert k in u.list;
    forall j | j in u.frames
      ensures FrameGood(u, Some(k), j)
    {
      assert j != k ==> FrameGood(v, None, j);
    }
    forall p | p in u.pages
      ensures PageGood(u, w, None, p) && Content(u, saved, p) == Content(v, saved, p)
    {
      assert PageGood(v, w, None, p);
    }
  }

  /** The free frame given to page p, with both dirty bits cleared. */
  function Attached(v: Vm, k: Kpage, p: Upage): Vm
    requires k in v.frames && p in v.pages
  {
    v.(frames := v.frames[k := v.frames[k].(upage := Some(p), dirty := false)],
       pages := v.pages[p := v.pages[p].(frame := Some(k), pte := v.pages[p].pte.(dirty := false))])
  }

  lemma AttachedGood(v: Vm, w: map<Upage, nat>, saved: map<Upage, seq<Byte>>, k: Kpage, p: Upage)
    requires Good(v, w, Some(k), None) && k in v.frames && p in v.pages && v.pages[p].frame.None?
    ensures Good(Attached(v, k, p), w, None, Some(p))
    ensures View(Attached(v, k, p), saved) == View(v, saved)
  {
    var u := Attached(v, k, p);
    assert FrameGood(v, Some(k), k);
    forall j | j in u.frames
      ensures FrameGood(u, None, j)
    {
      assert FrameGood(v, Some(k), j);
    }
    forall q | q in u.pages
      ensures PageGood(u, w, Some(p), q) && Content(u, saved, q) == Content(v, saved, q)
    {
      assert PageGood(v, w, None, q);
    }
  }

  /** The frame of the page being loaded filled by the kernel, which sets the kernel mapping's bits. */
  function Filled(v: Vm, k: Kpage, bytes: seq<Byte>): Vm
    requires k in v.frames
  {
    v.(frames := v.frames[k := v.frames[k].(bytes := bytes, dirty := true, accessed := true)])
  }

  /** The page's slot given back. */
  function Unswapped(v: Vm, p: Upage): Vm
    requires p in v.pages
  {
    v.(pages := v.pages[p := v.pages[p].(swap := None)])
  }

  lemma FilledGood(v: Vm, w: map<Upage, nat>, p: Upage, k: Kpage, bytes: seq<Byte>)
    requires Good(v, w, None, Some(p)) && p in v.pages && v.pages[p].frame == Some(k) && IsPage(bytes)
    ensures k in v.frames
    ensures Good(Filled(v, k, bytes), w, None, Some(p))
    ensures Good(Unswapped(Filled(v, k, bytes), p), w - {p}, None, Some(p))
  {
    assert PageGood(v, w, Some(p), p);
    var u := Filled(v, k, bytes);
    var u' := Unswapped(u, p);
    forall j | j in u.frames
      ensures FrameGood(u, None, j) && FrameGood(u', None, j)
    {
      assert FrameGood(v, None, j);
    }
    forall q | q in u.pages
      ensures PageGood(u, w, Some(p), q) && PageGood(u', w - {p}, Some(p), q)
    {
      assert PageGood(v, w, Some(p), q);
    }
  }

  /** The frame mapped at p with fresh hardware bits; its page table exists from now on. */
  function Installed(v: Vm, k: Kpage, p: Upage): Vm
    requires p in v.pages
  {
    v.(pages := v.pages[p := v.pages[p].(pte := Pte(true, k, v.pages[p].writable, false, false))],
       tables := v.tables + {p / ENTRIES_PER_TABLE})
  }

  lemma InstalledGood(v: Vm, w: map<Upage, nat>, k: Kpage, p: Upage)
    requires Good(v, w, None, Some(p)) && p in v.pages && v.pages[p].frame == Some(k) && p !in w
    requires k in v.frames && (v.frames[k].dirty || (v.frames[k].bytes == ZeroPage() && v.pages[p].image == []))
    ensures Good(Installed(v, k, p), w, None, None)
  {
    var u := Installed(v, k, p);
    forall j | j in u.frames
      ensures FrameGood(u, None, j)
    {
      assert FrameGood(v, None, j);
    }
    forall q | q in u.pages
      ensures PageGood(u, w, None, q)
    {
      assert PageGood(v, w, Some(p), q);
    }
  }

  lemma InstalledView(v: Vm, saved: map<Upage, seq<Byte>>, k: Kpage, p: Upage)
    requires p in v.pages && k in v.frames
    ensures View(Installed(v, k, p), saved) == View(v, saved)[p := v.frames[k].bytes]
  {
    forall q | q in v.pages
      ensures Content(Installed(v, k, p), saved, q) == if q == p then v.frames[k].bytes else Content(v, saved, q)
    {
    }
  }

  /** The frame of a page given back: when the page goes, or after a load that failed. */
  function Released(v: Vm, k: Kpage, p: Upage): Vm
    requires p in v.pages && k in v.list
  {
    v.(list := Without(v.list, k), frames := v.frames - {k},
       pages := v.pages[p := v.pages[p].(frame := None, pte := v.pages[p].pte.(present := false))])
  }

  function Without(s: seq<Kpage>, k: Kpage): seq<Kpage> {
    if s == [] then [] else if s[0] == k then s[1..] else [s[0]] + Without(s[1..], k)
  }

  lemma {:induction false} WithoutMembers(s: seq<Kpage>, k: Kpage)
    requires Distinct(s)
    ensures Distinct(Without(s, k))
    ensures forall j :: j in Without(s, k) <==> j in s && j != k
  {
    if s != [] {
      var rest := Without(s[1..], k);
      WithoutMembers(s[1..], k);
      assert s[0] !in s[1..];
      assert s == [s[0]] + s[1..];
      assert Distinct([s[0]] + rest);
    }
  }

  lemma {:induction false} WithoutLength(s: seq<Kpage>, k: Kpage)
    requires k in s
    ensures |Without(s, k)| == |s| - 1
  {
    if s[0] != k {
      WithoutLength(s[1..], k);
    }
  }

  lemma ReleasedGood(v: Vm, w: map<Upage, nat>, k: Kpage, p: Upage, loading: Option<Upage>)
    requires Good(v, w, None, loading) && p in v.pages && v.pages[p].frame == Some(k) && k in v.list
    requires loading.Some? ==> loading == Some(p)
    ensures Good(Released(v, k, p), w, None, None)
    ensures forall j :: j in Without(v.list, k) <==> j in v.list && j != k
  {
    var u := Released(v, k, p);
    WithoutMembers(v.list, k);
    assert PageGood(v, w, loading, p);
    forall j | j in u.frames
      ensures FrameGood(u, None, j)
    {
      assert FrameGood(v, None, j);
    }
    forall q | q in u.pages
      ensures PageGood(u, w, None, q)
    {
      assert PageGood(v, w, loading, q);
    }
  }

  /** What the page of a released frame holds then: what it has in swap, or its initial image. */
  ghost function AfterRelease(v: Vm, saved: map<Upage, seq<Byte>>, p: Upage): seq<Byte>
    requires p in v.pages
  {
    if p in saved then saved[p] else Initial(v.pages[p].image)
  }

  lemma ReleasedView(v: Vm, w: map<Upage, nat>, saved: map<Upage, seq<Byte>>, k: Kpage, p: Upage, loading: Option<Upage>)
    requires Good(v, w, None, loading) && p in v.pages && v.pages[p].frame == Some(k) && k in v.list
    requires loading.Some? ==> loading == Some(p)
    ensures p in View(v, saved) && View(Released(v, k, p), saved) == View(v, saved)[p := AfterRelease(v, saved, p)]
    ensures loading == Some(p) ==> View(v, saved)[p] == AfterRelease(v, saved, p)
  {
    hide Good, Content, Initial;
    var u := Released(v, k, p);
    forall q | q in v.pages
      ensures Content(u, saved, q) == if q == p then AfterRelease(v, saved, p) else Content(v, saved, q)
      ensures q == p && loading == Some(p) ==> Content(v, saved, q) == AfterRelease(v, saved, p)
    {
      ReleasedContent(v, w, saved, k, p, loading, q);
    }
  }

  lemma ReleasedContent(v: Vm, w: map<Upage, nat>, saved: map<Upage, seq<Byte>>, k: Kpage, p: Upage, loading: Option<Upage>, q: Upage)
    requires Good(v, w, None, loading) && p in v.pages && v.pages[p].frame == Some(k) && k in v.list && q in v.pages
    requires loading.Some? ==> loading == Some(p)
    ensures Content(Released(v, k, p), saved, q) == if q == p then AfterRelease(v, saved, p) else Content(v, saved, q)
    ensures q == p && loading == Some(p) ==> Content(v, saved, q) == AfterRelease(v, saved, p)
  {
    assert PageGood(v, w, loading, p) && PageGood(v, w, loading, q);
  }

  lemma FrameListed(v: Vm, w: map<Upage, nat>, p: Upage)
    requires Good(v, w, None, None) && p in v.pages
    ensures v.pages[p].frame.Some? ==> v.pages[p].frame.value in v.list
    ensures v.pages[p].pte.present ==> v.pages[p].frame.Some?
  {
    assert PageGood(v, w, None, p);
  }

  /** A page that has no frame goes, and so does its swap slot. */
  function WithoutPage(v: Vm, p: Upage): Vm {
    v.(pages := v.pages - {p})
  }

  lemma WithoutPageGood(v: Vm, w: map<Upage, nat>, p: Upage)
    requires Good(v, w, None, None) && p in v.pages && v.pages[p].frame.None?
    ensures Good(WithoutPage(v, p), w - {p}, None, None)
  {
    var u := WithoutPage(v, p);
    forall j | j in u.frames
      ensures FrameGood(u, None, j)
    {
      assert FrameGood(v, None, j);
    }
    forall q | q in u.pages
      ensures PageGood(u, w - {p}, None, q)
    {
      assert PageGood(v, w, None, q);
    }
  }

  lemma WithoutPageView(v: Vm, saved: map<Upage, seq<Byte>>, p: Upage)
    ensures View(WithoutPage(v, p), saved - {p}) == View(v, saved) - {p}
  {
    forall q | q in v.pages && q != p
      ensures Content(WithoutPage(v, p), saved - {p}, q) == Content(v, saved, q)
    {
    }
  }

  // ---- the process itself ----

  /** A store through the user mapping: the MMU sets that mapping's bits. */
  function Stored(v: Vm, p: Upage, ofs: nat, b: Byte): Vm
    requires p in v.pages && v.pages[p].pte.kpage in v.frames && ofs < |v.frames[v.pages[p].pte.kpage].bytes|
  {
    var k, e := v.pages[p].pte.kpage, v.pages[p];
    v.(frames := v.frames[k := v.frames[k].(bytes := v.frames[k].bytes[ofs := b])],
       pages := v.pages[p := e.(pte := e.pte.(dirty := true, accessed := true))])
  }

  lemma MappedFrame(v: Vm, w: map<Upage, nat>, p: Upage)
    requires Good(v, w, None, None) && p in v.pages && v.pages[p].pte.present
    ensures var k := v.pages[p].pte.kpage;
            k in v.frames && IsPage(v.frames[k].bytes) && v.frames[k].upage == Some(p)
  {
    assert PageGood(v, w, None, p);
    assert FrameGood(v, None, v.pages[p].pte.kpage);
  }

  lemma StoredGood(v: Vm, w: map<Upage, nat>, p: Upage, ofs: nat, b: Byte)
    requires Good(v, w, None, None) && p in v.pages && v.pages[p].pte.present && ofs < PAGE_SIZE
    ensures v.pages[p].pte.kpage in v.frames && IsPage(v.frames[v.pages[p].pte.kpage].bytes)
    ensures Good(Stored(v, p, ofs, b), w, None, None)
    ensures NoNewPins(v, Stored(v, p, ofs, b)) && SameImages(v, Stored(v, p, ofs, b))
  {
    MappedFrame(v, w, p);
    var u := Stored(v, p, ofs, b);
    forall j | j in u.frames
      ensures FrameGood(u, None, j)
    {
      assert FrameGood(v, None, j);
    }
    forall q | q in u.pages
      ensures PageGood(u, w, None, q)
    {
      assert PageGood(v, w, None, q);
    }
  }

  /** A store changes one byte of one page of the view: no two pages share a frame. */
  lemma StoredView(v: Vm, w: map<Upage, nat>, saved: map<Upage, seq<Byte>>, p: Upage, ofs: nat, b: Byte)
    requires Good(v, w, None, None) && p in v.pages && v.pages[p].pte.present && ofs < PAGE_SIZE
    requires v.pages[p].pte.kpage in v.frames && IsPage(v.frames[v.pages[p].pte.kpage].bytes)
    ensures IsPage(View(v, saved)[p])
    ensures View(Stored(v, p, ofs, b), saved) == View(v, saved)[p := View(v, saved)[p][ofs := b]]
  {
    MappedFrame(v, w, p);
    forall q | q in v.pages
      ensures Content(Stored(v, p, ofs, b), saved, q) ==
              if q == p then Content(v, saved, p)[ofs := b] else Content(v, saved, q)
    {
      assert PageGood(v, w, None, q);
    }
  }

  /** The page's bytes now in the frame: the slot they came from may go. */
  lemma UnswappedView(v: Vm, w: map<Upage, nat>, saved: map<Upage, seq<Byte>>, p: Upage, k: Kpage, bytes: seq<Byte>)
    requires Good(v, w, None, Some(p)) && p in v.pages && v.pages[p].frame == Some(k) && k in v.frames
    ensures View(Unswapped(Filled(v, k, bytes), p), saved - {p}) == View(v, saved)[p := Initial(v.pages[p].image)]
  {
    forall q | q in v.pages
      ensures Content(Unswapped(Filled(v, k, bytes), p), saved - {p}, q) ==
              if q == p then Initial(v.pages[p].image) else Content(v, saved, q)
    {
      assert PageGood(v, w, Some(p), q);
      assert PageGood(v, w, Some(p), p);
    }
  }

  lemma FilledView(v: Vm, w: map<Upage, nat>, saved: map<Upage, seq<Byte>>, p: Upage, k: Kpage, bytes: seq<Byte>)
    requires Good(v, w, None, Some(p)) && p in v.pages && v.pages[p].frame == Some(k) && k in v.frames
    ensures View(Filled(v, k, bytes), saved) == View(v, saved)
  {
    forall q | q in v.pages
      ensures Content(Filled(v, k, bytes), saved, q) == Content(v, saved, q)
    {
      assert PageGood(v, w, Some(p), q);
      assert PageGood(v, w, Some(p), p);
    }
  }

  /** The second-chance rule: the first frame from the hand that the first sweep wants, or else the first that is
      not pinned. A third sweep is never needed. */
  ghost predicate SecondChance(v: Vm, start: nat, k: Kpage, rev: nat, x: nat) {
    && start < |v.list| && x < |v.list| && k == At(v, start, x) && !Pinned(v, k)
    && (rev == 0 ==> FirstChoice(v, k) && forall y :: 0 <= y < x ==> !FirstChoice(v, At(v, start, y)))
    && (rev == 1 ==> (forall y :: 0 <= y < |v.list| ==> !FirstChoice(v, At(v, start, y)))
                     && forall y :: 0 <= y < x ==> Pinned(v, At(v, start, y)))
    && rev <= 1
  }

  lemma SecondSweepEnds(v: Vm, start: nat, x: nat, j: Kpage)
    requires FramesGood(v, None) && start < |v.list| && x < |v.list| && j in v.frames && !v.frames[j].pinned
    requires forall y :: 0 <= y <= x ==> Pinned(v, At(v, start, y))
    ensures x + 1 < |v.list|
  {
    assert j in v.list;
    var i :| 0 <= i < |v.list| && v.list[i] == j;
    var y := AtCovers(v, start, i);
  }

  /** The eviction test of sweep `rev` on frame k. */
  predicate Takes(v: Vm, k: Kpage, rev: nat) {
    && !Pinned(v, k)
    && (rev == 0 ==> IsReadonly(v, k) || (!IsAccessed(v, k) && !IsDirty(v, k)))
    && (rev == 1 ==> IsReadonly(v, k) || !IsDirty(v, k))
  }

  /** The list position x places after `start`. */
  function Position(v: Vm, start: nat, x: nat): nat
    requires start < |v.list| && x < |v.list|
  {
    if start + x < |v.list| then start + x else start + x - |v.list|
  }

  lemma SweepStart(v: Vm, start: nat)
    requires FramesGood(v, None) && start < |v.list|
    ensures Sweeping(v, v, start, 0, 0)
  {
    forall y | 0 <= y < |v.list|
      ensures SameFrame(v, v, At(v, start, y))
    {
      SweepFrame(v, v, start, y);
    }
  }

  lemma SweepTakes(v: Vm, u: Vm, start: nat, rev: nat, x: nat)
    requires Sweeping(v, u, start, rev, x) && FramesGood(v, None) && FramesGood(u, None)
    ensures var k := At(v, start, x);
            if rev == 0 then Takes(u, k, 0) == FirstChoice(v, k) else Takes(u, k, 1) == !Pinned(v, k)
  {
    SweepFrame(v, u, start, x);
    SweepFrame(v, v, start, x);
    assert FrameButBits(v, u, At(v, start, x));
  }

  /** A taken frame is the one the second-chance rule names. */
  lemma SweepFound(v: Vm, u: Vm, start: nat, rev: nat, x: nat)
    requires Sweeping(v, u, start, rev, x) && FramesGood(v, None) && FramesGood(u, None)
    requires Takes(u, At(v, start, x), rev)
    ensures SecondChance(v, start, At(v, start, x), rev, x)
  {
    SweepTakes(v, u, start, rev, x);
  }

  /** Where the clock is after a visit that took nothing. */
  lemma SweepMissed(v: Vm, u: Vm, u': Vm, start: nat, rev: nat, x: nat, j: Kpage)
    requires Sweeping(v, u, start, rev, x) && FramesGood(v, None) && FramesGood(u, None)
    requires !Takes(u, At(v, start, x), rev) && j in v.frames && !v.frames[j].pinned
    requires var k := At(v, start, x);
             k in u.frames && u.frames[k].upage.Some? && u.frames[k].upage.value in u.pages && u' == Visited(u, k)
    ensures if x + 1 < |v.list| then Sweeping(v, u', start, rev, x + 1) else Sweeping(v, u', start, rev + 1, 0)
  {
    SweepTakes(v, u, start, rev, x);
    if rev == 1 {
      SecondSweepEnds(v, start, x, j);
    }
    SweepStep(v, u, u', start, rev, x);
  }

  /** Every frame on the list has an entry and a page. */
  ghost predicate Listed(v: Vm) {
    forall i :: 0 <= i < |v.list| ==>
      v.list[i] in v.frames && v.frames[v.list[i]].upage.Some? && v.frames[v.list[i]].upage.value in v.pages
  }

  /** How a sweep ends: the tables, the frame taken (if any) and the position after it. */
  datatype Clock = Clock(vm: Vm, taken: Option<Kpage>, next: nat)

  /** The sweep from list position i in revolution `rev` that started at `first`. */
  ghost function ClockFrom(v: Vm, first: nat, i: nat, rev: nat): Clock
    requires Listed(v) && first < |v.list| && i < |v.list| && rev < 3
    decreases 3 - rev, if i < first then first - i else |v.list| + first - i
  {
    var k := v.list[i];
    var u := Visited(v, k);
    var i' := if i + 1 == |v.list| then 0 else i + 1;
    var rev' := if i' == first then rev + 1 else rev;
    if Takes(v, k, rev) then Clock(u, Some(k), i')
    else if rev' == 3 then Clock(u, None, i')
    else ClockFrom(u, first, i', rev')
  }

  lemma VisitedListed(v: Vm, k: Kpage)
    requires Listed(v) && k in v.frames && v.frames[k].upage.Some? && v.frames[k].upage.value in v.pages
    ensures Listed(Visited(v, k))
  {
  }

  lemma GoodListed(v: Vm, w: map<Upage, nat>)
    requires Good(v, w, None, None)
    ensures Listed(v)
  {
    forall i | 0 <= i < |v.list|
      ensures v.list[i] in v.frames && v.frames[v.list[i]].upage.Some? && v.frames[v.list[i]].upage.value in v.pages
    {
      assert v.list[i] in v.list;
      assert FrameGood(v, None, v.list[i]);
    }
  }

  /** u is v after visits that kept everything but bits: same view, still good. */
  ghost predicate Kept(v: Vm, u: Vm, w: map<Upage, nat>, saved: map<Upage, seq<Byte>>) {
    Good(u, w, None, None) && View(u, saved) == View(v, saved) && OnlyBits(v, u) && SameMarks(v, u)
  }

  lemma KeptVisit(v: Vm, u: Vm, w: map<Upage, nat>, saved: map<Upage, seq<Byte>>, start: nat, x: nat)
    requires Kept(v, u, w, saved) && FramesGood(v, None) && start < |v.list| && x < |v.list|
    ensures Listed(u) && At(v, start, x) == u.list[Position(v, start, x)]
    ensures Kept(v, Visited(u, At(v, start, x)), w, saved)
  {
    GoodListed(u, w);
    SweepFrame(v, u, start, x);
    VisitedGood(u, w, At(v, start, x));
    VisitedView(u, saved, At(v, start, x));
    VisitedMarks(u, At(v, start, x));
    VisitedOnlyBits(v, u, At(v, start, x));
  }

  /** What a whole sweep from x places after `start` in revolution `rev` leads to. Contracts compare it with true so
      that proofs carry it as a whole. */
  ghost predicate Ends(v: Vm, c: Clock, w: map<Upage, nat>, saved: map<Upage, seq<Byte>>, start: nat, rev: nat, x: nat) {
    && Kept(v, c.vm, w, saved)
    && c.taken.Some? && SecondChance(v, start, c.taken.value, rev, x)
    && c.next == if x + 1 < |v.list| then Position(v, start, x + 1) else start
  }

  lemma ClockFound(v: Vm, u: Vm, start: nat, rev: nat, x: nat)
    requires Listed(u) && v.list == u.list && start < |v.list| && x < |v.list| && rev <= 1
    requires Takes(u, At(v, start, x), rev)
    ensures var k := At(v, start, x);
            k in u.frames && u.frames[k].upage.Some? && u.frames[k].upage.value in u.pages &&
            ClockFrom(u, start, Position(v, start, x), rev) ==
              Clock(Visited(u, k), Some(k), if x + 1 < |v.list| then Position(v, start, x + 1) else start)
  {
    assert At(v, start, x) == u.list[Position(v, start, x)];
  }

  lemma ClockAdvances(v: Vm, u: Vm, start: nat, rev: nat, x: nat)
    requires Listed(u) && v.list == u.list && start < |v.list| && x + 1 < |v.list| && rev <= 1
    requires !Takes(u, At(v, start, x), rev)
    ensures var k := At(v, start, x);
            k in u.frames && u.frames[k].upage.Some? && u.frames[k].upage.value in u.pages && Listed(Visited(u, k)) &&
            ClockFrom(u, start, Position(v, start, x), rev) ==
              ClockFrom(Visited(u, k), start, Position(v, start, x + 1), rev)
  {
    assert At(v, start, x) == u.list[Position(v, start, x)];
    VisitedListed(u, At(v, start, x));
  }

  lemma ClockWraps(v: Vm, u: Vm, start: nat, rev: nat)
    requires Listed(u) && v.list == u.list && start < |v.list| && rev <= 1
    requires !Takes(u, At(v, start, |v.list| - 1), rev)
    ensures var k := At(v, start, |v.list| - 1);
            k in u.frames && u.frames[k].upage.Some? && u.frames[k].upage.value in u.pages && Listed(Visited(u, k)) &&
            ClockFrom(u, start, Position(v, start, |v.list| - 1), rev) ==
              ClockFrom(Visited(u, k), start, Position(v, start, 0), rev + 1)
  {
    assert At(v, start, |v.list| - 1) == u.list[Position(v, start, |v.list| - 1)];
    VisitedListed(u, At(v, start, |v.list| - 1));
  }

  /** The clock after a visit that took nothing. */
  lemma ClockMissed(v: Vm, u: Vm, w: map<Upage, nat>, saved: map<Upage, seq<Byte>>,
                    start: nat, rev: nat, x: nat, j: Kpage, c: Clock)
    returns (u': Vm, rev': nat, x': nat)
    requires Sweeping(v, u, start, rev, x) && FramesGood(v, None) && Kept(v, u, w, saved)
    requires j in v.frames && !v.frames[j].pinned && !Takes(u, At(v, start, x), rev)
    requires Listed(u) && c == ClockFrom(u, start, Position(v, start, x), rev)
    ensures Sweeping(v, u', start, rev', x') == true && Kept(v, u', w, saved) == true
    ensures x' < |v.list| && rev' <= 1 && (rev' > rev || (rev' == rev && x' > x))
    ensures Listed(u') && u'.list == v.list && c == ClockFrom(u', start, Position(v, start, x'), rev')
  {
    KeptVisit(v, u, w, saved, start, x);
    u' := Visited(u, At(v, start, x));
    SweepMissed(v, u, u', start, rev, x, j);
    rev', x' := ClockMoves(v, u, start, rev, x);
  }

  lemma ClockMoves(v: Vm, u: Vm, start: nat, rev: nat, x: nat) returns (rev': nat, x': nat)
    requires Listed(u) && v.list == u.list && start < |v.list| && x < |v.list| && rev <= 1
    requires !Takes(u, At(v, start, x), rev)
    ensures if x + 1 < |v.list| then rev' == rev && x' == x + 1 else rev' == rev + 1 && x' == 0
    ensures var k := At(v, start, x);
            k in u.frames && u.frames[k].upage.Some? && u.frames[k].upage.value in u.pages && Listed(Visited(u, k)) &&
            ClockFrom(u, start, Position(v, start, x), rev) ==
              ClockFrom(Visited(u, k), start, Position(v, start, x'), rev')
  {
    if x + 1 < |v.list| {
      ClockAdvances(v, u, start, rev, x);
      rev', x' := rev, x + 1;
    } else {
      ClockWraps(v, u, start, rev);
      rev', x' := rev + 1, 0;
    }
  }

  /** The sweep keeps the tables good and the process's view, and takes the frame of the second-chance rule. */
  lemma {:induction false} ClockTakes(v: Vm, u: Vm, w: map<Upage, nat>, saved: map<Upage, seq<Byte>>,
                                      start: nat, rev: nat, x: nat, j: Kpage, c: Clock)
    returns (rev': nat, x': nat)
    requires Sweeping(v, u, start, rev, x) && FramesGood(v, None) && Kept(v, u, w, saved)
    requires j in v.frames && !v.frames[j].pinned
    requires Listed(u) && c == ClockFrom(u, start, Position(v, start, x), rev)
    ensures Ends(v, c, w, saved, start, rev', x') == true
    decreases 3 - rev, |v.list| - x
  {
    if Takes(u, At(v, start, x), rev) {
      KeptVisit(v, u, w, saved, start, x);
      SweepFound(v, u, start, rev, x);
      ClockFound(v, u, start, rev, x);
      rev', x' := rev, x;
    } else {
      var u';
      u', rev', x' := ClockMissed(v, u, w, saved, start, rev, x, j, c);
      rev', x' := ClockTakes(v, u', w, saved, start, rev', x', j, c);
    }
  }

  lemma EndsInside(v: Vm, c: Clock, w: map<Upage, nat>, saved: map<Upage, seq<Byte>>, start: nat, rev: nat, x: nat)
    requires Ends(v, c, w, saved, start, rev, x) && FramesGood(v, None)
    ensures c.taken.Some? && c.next < |c.vm.list| && c.taken.value in c.vm.frames
    ensures c.taken.value !in c.vm.list || |c.vm.list| == 1 || c.vm.list[c.next] != c.taken.value
  {
    SweepFrame(v, c.vm, start, x);
    if x + 1 < |v.list| {
      AtDistinct(v, start, x, x + 1);
    } else if |v.list| > 1 {
      AtDistinct(v, start, x, 0);
    }
  }

  /** u pins no frame that v did not. */
  ghost predicate NoNewPins(v: Vm, u: Vm) {
    forall k :: Pinned(u, k) ==> Pinned(v, k)
  }

  lemma OnlyBitsPins(v: Vm, u: Vm)
    requires OnlyBits(v, u)
    ensures NoNewPins(v, u)
  {
    forall k | Pinned(u, k)
      ensures Pinned(v, k)
    {
      assert FrameButBits(v, u, k);
    }
  }

  /** The same pages, with the same file images and permissions. */
  ghost predicate SameImages(v: Vm, u: Vm) {
    u.pages.Keys == v.pages.Keys &&
    forall p :: p in v.pages ==> u.pages[p].image == v.pages[p].image && u.pages[p].writable == v.pages[p].writable
  }

  /** Entries of pages that have no frame do not change, but for stale hardware bits. */
  ghost predicate SameNonresident(v: Vm, u: Vm) {
    u.pages.Keys == v.pages.Keys &&
    forall p :: p in v.pages ==>
      && u.pages[p].image == v.pages[p].image && u.pages[p].writable == v.pages[p].writable
      && (v.pages[p].frame.None? ==> u.pages[p].frame.None? && u.pages[p].swap == v.pages[p].swap)
  }

  lemma OnlyBitsNonresident(v: Vm, u: Vm)
    requires OnlyBits(v, u)
    ensures SameNonresident(v, u)
  {
    forall p | p in v.pages
      ensures u.pages[p].image == v.pages[p].image && u.pages[p].writable == v.pages[p].writable
      ensures u.pages[p].frame == v.pages[p].frame && u.pages[p].swap == v.pages[p].swap
    {
      assert PageButBits(v, u, p);
    }
  }

  /** While a page is being loaded, what it must hold is in its swap slot or in its file. */
  lemma LoadingContent(v: Vm, w: map<Upage, nat>, saved: map<Upage, seq<Byte>>, p: Upage)
    requires Good(v, w, None, Some(p)) && p in v.pages && saved.Keys == w.Keys
    ensures v.pages[p].swap.Some? ==> p in saved && p / ENTRIES_PER_TABLE in v.tables
    ensures View(v, saved)[p] == if v.pages[p].swap.Some? then saved[p] else Initial(v.pages[p].image)
  {
    assert PageGood(v, w, Some(p), p);
  }

  /** Setting a page to what it already holds changes nothing. */
  lemma SetBack(m: map<Upage, seq<Byte>>, p: Upage, c: seq<Byte>)
    requires p in m
    ensures m[p := c][p := m[p]] == m && m[p := m[p]] == m
  {
  }

  /** A fetch through the user mapping sets its accessed bit. */
  function Fetched(v: Vm, p: Upage): Vm
    requires p in v.pages
  {
    v.(pages := v.pages[p := v.pages[p].(pte := v.pages[p].pte.(accessed := true))])
  }

  lemma FetchedGood(v: Vm, w: map<Upage, nat>, p: Upage)
    requires Good(v, w, None, None) && p in v.pages
    ensures Good(Fetched(v, p), w, None, None)
    ensures NoNewPins(v, Fetched(v, p)) && SameImages(v, Fetched(v, p))
  {
    var u := Fetched(v, p);
    forall k | k in u.frames
      ensures FrameGood(u, None, k)
    {
      assert FrameGood(v, None, k);
    }
    forall q | q in u.pages
      ensures PageGood(u, w, None, q)
    {
      assert PageGood(v, w, None, q);
    }
  }

  lemma FetchedView(v: Vm, saved: map<Upage, seq<Byte>>, p: Upage)
    requires p in v.pages
    ensures View(Fetched(v, p), saved) == View(v, saved)
  {
    forall q | q in v.pages
      ensures Content(Fetched(v, p), saved, q) == Content(v, saved, q)
    {
    }
  }

  /** A new page, in no frame and no slot; its hardware entry may hold stale bits but is not present. */
  function WithPage(v: Vm, p: Upage, writable: bool, image: seq<Byte>, stale: Pte): Vm {
    v.(pages := v.pages[p := PageEntry(None, None, writable, image, stale)])
  }

  lemma WithPageGood(v: Vm, w: map<Upage, nat>, p: Upage, writable: bool, image: seq<Byte>, stale: Pte)
    requires Good(v, w, None, None) && p !in v.pages && |image| <= PAGE_SIZE && !stale.present
    ensures Good(WithPage(v, p, writable, image, stale), w, None, None)
  {
    var u := WithPage(v, p, writable, image, stale);
    forall k | k in u.frames
      ensures FrameGood(u, None, k)
    {
      assert FrameGood(v, None, k);
    }
    forall q | q in u.pages
      ensures PageGood(u, w, None, q)
    {
      assert q != p ==> PageGood(v, w, None, q);
    }
  }

  lemma WithPageView(v: Vm, saved: map<Upage, seq<Byte>>, p: Upage, writable: bool, image: seq<Byte>, stale: Pte)
    requires p !in saved && !stale.present
    ensures View(WithPage(v, p, writable, image, stale), saved) == View(v, saved)[p := Initial(image)]
  {
    forall q | q in v.pages && q != p
      ensures Content(WithPage(v, p, writable, image, stale), saved, q) == Content(v, saved, q)
    {
    }
  }

  /** What a process does to its memory: accesses, new pages, and pages given back. */
  datatype Access =
    | Fetch(page: Upage, ofs: nat)
    | Store(page: Upage, ofs: nat, byte: Byte)
    | NewPage(uaddr: nat, stale: Pte)
    | FreePage(page: Upage)

  /** What is fixed about a page: the image it starts from, and whether the process may write to it. */
  datatype Kind = Kind(image: seq<Byte>, writable: bool)

  type Kinds = map<Upage, Kind>

  function KindsOf(v: Vm): Kinds {
    map p | p in v.pages :: Kind(v.pages[p].image, v.pages[p].writable)
  }

  lemma SameKinds(v: Vm, u: Vm)
    requires SameImages(v, u)
    ensures KindsOf(u) == KindsOf(v)
  {
  }

  lemma NewKind(v: Vm, p: Upage, stale: Pte)
    ensures KindsOf(WithPage(v, p, true, [], stale)) == KindsOf(v)[p := Kind([], true)]
    ensures forall k :: Pinned(WithPage(v, p, true, [], stale), k) <==> Pinned(v, k)
  {
  }

  lemma KindGone(v: Vm, u: Vm, p: Upage)
    requires u.pages.Keys == v.pages.Keys - {p}
    requires forall q :: q in u.pages ==> u.pages[q].image == v.pages[q].image && u.pages[q].writable == v.pages[q].writable
    ensures KindsOf(u) == KindsOf(v) - {p}
  {
  }

  /** A flat memory, its pages' kinds, and the bytes fetched from it so far. */
  datatype FlatMemory = FlatMemory(mem: map<Upage, seq<Byte>>, kinds: Kinds, fetched: seq<Byte>)

  /** An access the process may make: to one of its pages, and to write only where it may. */
  predicate Allowed(kinds: Kinds, a: Access) {
    match a
    case Fetch(p, ofs) => p in kinds && ofs < PAGE_SIZE
    case Store(p, ofs, b) => p in kinds && ofs < PAGE_SIZE && kinds[p].writable
    case NewPage(uaddr, stale) => uaddr / PAGE_SIZE !in kinds && 0 < uaddr < PHYS_BASE && !stale.present
    case FreePage(p) => p in kinds
  }

  /** What a flat memory does; an access that is not allowed does nothing. */
  function FlatAccess(f: FlatMemory, a: Access): FlatMemory {
    if !Allowed(f.kinds, a) then f else
    match a
    case Fetch(p, ofs) => if p in f.mem && ofs < |f.mem[p]| then f.(fetched := f.fetched + [f.mem[p][ofs]]) else f
    case Store(p, ofs, b) => if p in f.mem && ofs < |f.mem[p]| then f.(mem := f.mem[p := f.mem[p][ofs := b]]) else f
    case NewPage(uaddr, stale) =>
      var p := uaddr / PAGE_SIZE;
      f.(mem := f.mem[p := ZeroPage()], kinds := f.kinds[p := Kind([], true)])
    case FreePage(p) => f.(mem := f.mem - {p}, kinds := f.kinds - {p})
  }

  /** A memory in which page `loss`, if any, is its initial image again. */
  function Forgot(m: map<Upage, seq<Byte>>, kinds: Kinds, loss: Option<Upage>): map<Upage, seq<Byte>> {
    if loss.Some? && loss.value in kinds then m[loss.value := Initial(kinds[loss.value].image)] else m
  }

  /** One access of a flat memory that may lose a page first. */
  function LossyAccess(f: FlatMemory, a: Access, loss: Option<Upage>): FlatMemory {
    FlatAccess(f.(mem := Forgot(f.mem, f.kinds, loss)), a)
  }

  /** What a flat memory does with a sequence of accesses, losing a page before some of them. */
  function Flat(f: FlatMemory, accesses: seq<Access>, losses: seq<Option<Upage>>): FlatMemory
    requires |losses| == |accesses|
  {
    if accesses == [] then f else
    var n := |accesses| - 1;
    LossyAccess(Flat(f, accesses[..n], losses[..n]), accesses[n], losses[n])
  }

  lemma FlatNext(f: FlatMemory, accesses: seq<Access>, losses: seq<Option<Upage>>, a: Access, loss: Option<Upage>)
    requires |losses| == |accesses|
    ensures Flat(f, accesses + [a], losses + [loss]) == LossyAccess(Flat(f, accesses, losses), a, loss)
  {
    assert (accesses + [a])[..|accesses|] == accesses && (losses + [loss])[..|losses|] == losses;
  }

  /** The flat memory after the first n accesses. */
  function FlatAt(f: FlatMemory, accesses: seq<Access>, losses: seq<Option<Upage>>, n: nat): FlatMemory
    requires n <= |accesses| == |losses|
  {
    Flat(f, accesses[..n], losses[..n])
  }

  lemma FlatAtNext(f: FlatMemory, accesses: seq<Access>, losses: seq<Option<Upage>>, n: nat)
    requires n < |accesses| == |losses|
    ensures FlatAt(f, accesses, losses, n + 1) == LossyAccess(FlatAt(f, accesses, losses, n), accesses[n], losses[n])
  {
    assert accesses[..n + 1] == accesses[..n] + [accesses[n]] && losses[..n + 1] == losses[..n] + [losses[n]];
    FlatNext(f, accesses[..n], losses[..n], accesses[n], losses[n]);
  }

  /** p is a whole page of the memory. */
  ghost predicate HasPage(f: FlatMemory, p: Upage) {
    p in f.mem && p in f.kinds && |f.mem[p]| == PAGE_SIZE && |f.kinds[p].image| <= PAGE_SIZE
  }

  /** Nothing from access i on to access j writes the byte, frees its page or loses it. */
  ghost predicate Untouched(accesses: seq<Access>, losses: seq<Option<Upage>>, p: Upage, ofs: nat, i: nat, j: nat)
    requires i <= j <= |accesses| == |losses|
  {
    forall n :: i <= n < j ==>
      && losses[n] != Some(p) && accesses[n] != FreePage(p)
      && (accesses[n].Store? ==> accesses[n].page != p || accesses[n].ofs != ofs)
  }

  /** What is not touched stays. */
  lemma {:induction false} FlatKeeps(f: FlatMemory, accesses: seq<Access>, losses: seq<Option<Upage>>,
                                     p: Upage, ofs: nat, i: nat, j: nat)
    requires i <= j <= |accesses| == |losses| && ofs < PAGE_SIZE
    requires HasPage(FlatAt(f, accesses, losses, i), p) && Untouched(accesses, losses, p, ofs, i, j)
    ensures HasPage(FlatAt(f, accesses, losses, j), p)
    ensures FlatAt(f, accesses, losses, j).mem[p][ofs] == FlatAt(f, accesses, losses, i).mem[p][ofs]
    decreases j
  {
    if i < j {
      FlatKeeps(f, accesses, losses, p, ofs, i, j - 1);
      FlatAtNext(f, accesses, losses, j - 1);
      KeptByOne(FlatAt(f, accesses, losses, j - 1), accesses[j - 1], losses[j - 1], p, ofs);
    }
  }

  lemma KeptByOne(f: FlatMemory, a: Access, loss: Option<Upage>, p: Upage, ofs: nat)
    requires HasPage(f, p) && ofs < PAGE_SIZE && loss != Some(p) && a != FreePage(p)
    requires a.Store? ==> a.page != p || a.ofs != ofs
    ensures HasPage(LossyAccess(f, a, loss), p) && LossyAccess(f, a, loss).mem[p][ofs] == f.mem[p][ofs]
  {
    var g := f.(mem := Forgot(f.mem, f.kinds, loss));
    assert HasPage(g, p) && g.mem[p] == f.mem[p];
  }

  /** A fetch gives the byte last stored there, if nothing touched it since. */
  lemma FetchesLastStore(f: FlatMemory, accesses: seq<Access>, losses: seq<Option<Upage>>,
                         p: Upage, ofs: nat, b: Byte, i: nat, j: nat)
    requires i < j < |accesses| == |losses| && ofs < PAGE_SIZE
    requires accesses[i] == Store(p, ofs, b) && accesses[j] == Fetch(p, ofs)
    requires HasPage(FlatAt(f, accesses, losses, i), p) && FlatAt(f, accesses, losses, i).kinds[p].writable
    requires Untouched(accesses, losses, p, ofs, i + 1, j) && losses[j] != Some(p)
    ensures FlatAt(f, accesses, losses, j + 1).fetched == FlatAt(f, accesses, losses, j).fetched + [b]
  {
    var g := FlatAt(f, accesses, losses, i);
    FlatAtNext(f, accesses, losses, i);
    StoredNow(g, p, ofs, b, losses[i]);
    FlatKeeps(f, accesses, losses, p, ofs, i + 1, j);
    FlatAtNext(f, accesses, losses, j);
    FetchedNow(FlatAt(f, accesses, losses, j), p, ofs, losses[j]);
  }

  lemma StoredNow(f: FlatMemory, p: Upage, ofs: nat, b: Byte, loss: Option<Upage>)
    requires HasPage(f, p) && f.kinds[p].writable && ofs < PAGE_SIZE
    ensures HasPage(LossyAccess(f, Store(p, ofs, b), loss), p) && LossyAccess(f, Store(p, ofs, b), loss).mem[p][ofs] == b
  {
    var g := f.(mem := Forgot(f.mem, f.kinds, loss));
    assert HasPage(g, p);
  }

  lemma FetchedNow(f: FlatMemory, p: Upage, ofs: nat, loss: Option<Upage>)
    requires HasPage(f, p) && ofs < PAGE_SIZE && loss != Some(p)
    ensures LossyAccess(f, Fetch(p, ofs), loss).fetched == f.fetched + [f.mem[p][ofs]]
  {
    var g := f.(mem := Forgot(f.mem, f.kinds, loss));
    assert HasPage(g, p) && g.mem[p] == f.mem[p];
  }

  /** A fetch gives the byte that was there at the start, if nothing touched it before. */
  lemma FetchesFirstByte(f: FlatMemory, accesses: seq<Access>, losses: seq<Option<Upage>>, p: Upage, ofs: nat, j: nat)
    requires j < |accesses| == |losses| && ofs < PAGE_SIZE && accesses[j] == Fetch(p, ofs) && HasPage(f, p)
    requires Untouched(accesses, losses, p, ofs, 0, j) && losses[j] != Some(p)
    ensures FlatAt(f, accesses, losses, j + 1).fetched == FlatAt(f, accesses, losses, j).fetched + [f.mem[p][ofs]]
  {
    assert FlatAt(f, accesses, losses, 0) == f;
    FlatKeeps(f, accesses, losses, p, ofs, 0, j);
    FlatAtNext(f, accesses, losses, j);
    FetchedNow(FlatAt(f, accesses, losses, j), p, ofs, losses[j]);
  }

  /** The pager's state: its tables, clock hand and pool, the sectors and bytes of swapped pages, the size of swap. */
  datatype Machine = Machine(vm: Vm, hand: Option<Kpage>, pool: set<Kpage>,
                             where: map<Upage, nat>, saved: map<Upage, seq<Byte>>, size: nat)

  /** Every slot that the swap disk can hold is in use. */
  predicate SwapFull(m: Machine) {
    |m.where| * SECTORS_PER_PAGE == m.size
  }

  /** m is a good state in which the process sees flat memory f. */
  ghost predicate Shows(m: Machine, f: FlatMemory) {
    && Good(m.vm, m.where, None, None) && m.saved.Keys == m.where.Keys
    && View(m.vm, m.saved) == f.mem && KindsOf(m.vm) == f.kinds
  }

  /** Where a sweep starts. */
  ghost predicate StartsAt(v: Vm, hand: Option<Kpage>, start: nat) {
    start < |v.list| && if hand.Some? then v.list[start] == hand.value else start == 0
  }

  /** The frame that the second-chance rule takes. */
  ghost predicate Victim(v: Vm, hand: Option<Kpage>, k: Kpage) {
    exists start: nat, rev: nat, x: nat :: StartsAt(v, hand, start) && SecondChance(v, start, k, rev, x)
  }

  /** The page that is lost when frame k is emptied, if any. */
  function LossOf(v: Vm, k: Kpage, full: bool): Option<Upage> {
    if full && Marked(v, k) then v.frames[k].upage else None
  }

  lemma AfterEvictionForgets(v: Vm, m: map<Upage, seq<Byte>>, k: Kpage, full: bool)
    ensures AfterEviction(v, m, k, full) == Forgot(m, KindsOf(v), LossOf(v, k, full))
  {
  }

  /** An eviction leaves a page alone that is in no frame. */
  lemma EvictsAnother(v: Vm, m: map<Upage, seq<Byte>>, k: Kpage, full: bool, p: Upage)
    requires k in v.frames ==> v.frames[k].upage != Some(p)
    ensures p in m ==> p in AfterEviction(v, m, k, full) && AfterEviction(v, m, k, full)[p] == m[p]
  {
  }

  predicate Faults(v: Vm, a: Access) {
    Allowed(KindsOf(v), a) && (a.Fetch? || a.Store?) && a.page in v.pages && !v.pages[a.page].pte.present
  }

  /**
   * Where a run ends: page 0 can be registered, but an assertion stops the kernel before it gets a frame; and a page that
   * is freed with the clock hand on its frame leaves the hand on memory that is no frame.
   */
  predicate Halts(v: Vm, hand: Option<Kpage>, a: Access) {
    || (Faults(v, a) && a.page == 0)
    || (a.FreePage? && a.page in v.pages && hand.Some? && hand == v.pages[a.page].frame)
  }

  /** Nothing else halts a run: new pages do not, nor do loads and stores outside page 0, nor freeing a page while the
      hand is on no frame of it. */
  lemma HaltsOnly(v: Vm, hand: Option<Kpage>, a: Access)
    ensures a.NewPage? ==> !Halts(v, hand, a)
    ensures (a.Fetch? || a.Store?) && (a.page != 0 || (a.page in v.pages && v.pages[a.page].pte.present)) ==> !Halts(v, hand, a)
    ensures a.FreePage? && a.page in v.pages && (v.pages[a.page].frame.None? || v.pages[a.page].frame != hand) ==> !Halts(v, hand, a)
  {
  }

  /** Exactly which page access a loses: the victim's, if a frame must be taken while swap is full, and it is marked. */
  ghost predicate Loses(m: Machine, a: Access, loss: Option<Upage>) {
    if Faults(m.vm, a) && m.pool == {} then
      exists k :: Victim(m.vm, m.hand, k) && loss == LossOf(m.vm, k, SwapFull(m))
    else
      loss == None
  }

  ghost predicate ShowsAt(f: FlatMemory, trace: seq<Machine>, accesses: seq<Access>, losses: seq<Option<Upage>>, i: nat)
    requires i < |trace| && i <= |accesses| == |losses|
  {
    Shows(trace[i], Flat(f, accesses[..i], losses[..i]))
  }

  /** A run: every state shows the flat memory so far, and each access loses what it must. */
  ghost predicate IsRun(f: FlatMemory, trace: seq<Machine>, accesses: seq<Access>, losses: seq<Option<Upage>>) {
    && |trace| == |accesses| + 1 && |losses| == |accesses|
    && (forall i {:trigger ShowsAt(f, trace, accesses, losses, i)} :: 0 <= i < |trace| ==> ShowsAt(f, trace, accesses, losses, i))
    && (forall i :: 0 <= i < |accesses| ==>
          Loses(trace[i], accesses[i], losses[i]) && !Halts(trace[i].vm, trace[i].hand, accesses[i]))
  }

  lemma RunNext(f: FlatMemory, trace: seq<Machine>, accesses: seq<Access>, losses: seq<Option<Upage>>,
                a: Access, loss: Option<Upage>, m: Machine)
    requires IsRun(f, trace, accesses, losses) && Loses(trace[|accesses|], a, loss)
    requires !Halts(trace[|accesses|].vm, trace[|accesses|].hand, a)
    requires Shows(m, LossyAccess(Flat(f, accesses, losses), a, loss))
    ensures IsRun(f, trace + [m], accesses + [a], losses + [loss])
  {
    hide Loses, Shows, LossyAccess, Flat, Halts;
    var trace', accesses', losses' := trace + [m], accesses + [a], losses + [loss];
    forall i | 0 <= i < |trace'|
      ensures ShowsAt(f, trace', accesses', losses', i)
    {
      if i < |trace| {
        assert ShowsAt(f, trace, accesses, losses, i);
        assert accesses'[..i] == accesses[..i] && losses'[..i] == losses[..i];
      } else {
        FlatNext(f, accesses, losses, a, loss);
        assert accesses'[..i] == accesses' && losses'[..i] == losses';
      }
    }
  }

  lemma RunStarts(f: FlatMemory, m: Machine)
    requires Shows(m, f)
    ensures IsRun(f, [m], [], []) && Flat(f, [], []) == f
  {
    assert ShowsAt(f, [m], [], [], 0);
  }

  class Pager {
    var vm: Vm
    var hand: Option<Kpage>     // clockhand
    var pool: set<Kpage>        // free frames of the user pool
    const swap: SwapTable

    ghost predicate Standing(hole: Option<Kpage>, loading: Option<Upage>)
      reads this, swap
    {
      swap.Valid() && Good(vm, Where(swap.list), hole, loading) && forall k :: k in pool ==> k !in vm.frames
    }

    ghost predicate HandValid()
      reads this
    {
      hand.Some? ==> hand.value in vm.list
    }

    ghost predicate Valid()
      reads this, swap
    {
      Standing(None, None) && HandValid()
    }

    /** The flat memory that the process sees. */
    ghost function Memory(): map<Upage, seq<Byte>>
      requires swap.Valid()
      reads this, swap
    {
      View(vm, swap.Saved())
    }

    constructor (swap: SwapTable, pool: set<Kpage>)
      requires swap.Valid() && swap.list == []
      ensures this.swap == swap && this.pool == pool && Valid()
      ensures vm == Vm([], map[], map[], {}) && hand.None?
    {
      this.swap, this.pool := swap, pool;
      vm, hand := Vm([], map[], map[], {}), None;
    }

    /** The clock sweep: picks the frame of the second-chance rule and leaves the hand just after it. */
    method ChooseVictim() returns (k: Kpage, ghost start: nat, ghost next: nat, ghost rev: nat, ghost x: nat)
      requires Valid() && exists j :: j in vm.frames && !vm.frames[j].pinned
      modifies this`vm, this`hand
      ensures StartsAt(old(vm), old(hand), start)
      ensures Ends(old(vm), Clock(vm, Some(k), next), Where(swap.list), swap.Saved(), start, rev, x) == true
      ensures next < |vm.list| && hand == Some(vm.list[next])
    {
      ghost var j :| j in vm.frames && !vm.frames[j].pinned;
      assert j in vm.list;
      var i := 0;
      if hand.Some? {
        i :| 0 <= i < |vm.list| && vm.list[i] == hand.value;
      }
      start := i;
      ghost var c;
      c, rev, x := SweepEnds(start, j);
      EndsInside(vm, c, Where(swap.list), swap.Saved(), start, rev, x);
      k, i := Sweep(i, c);
      hand, next := Some(vm.list[i]), i;
    }

    /**
     * Empties frame k, writing its page to swap if any mark says it was modified. Exactly a marked page that finds swap
     * full is lost; an unmarked one still was its initial image.
     */
    method EmptyFrame(k: Kpage)
      requires Standing(None, None) && k in vm.frames
      modifies this`vm, swap
      ensures Standing(Some(k), None) && vm.list == old(vm).list && vm.tables == old(vm).tables
      ensures k in vm.frames && vm.frames[k] == Frame(None, false, false, ZeroPage(), true, true)
      ensures EvictedTo(old(vm), old(swap.Saved()), old(Memory()), k, old(swap.Full()), swap.Saved(), Memory()) == true
      ensures SameNonresident(old(vm), vm) && NoNewPins(old(vm), vm)
    {
      hide FramesGood, PagesGood, View, EvictedTo, Evicted, SameNonresident, NoNewPins;
      ghost var v, saved, w := vm, swap.Saved(), Where(swap.list);
      swap.SavedPages(0);
      FrameContent(v, w, saved, k);
      var p := vm.frames[k].upage.value;
      var sector := None;
      if IsDirty(vm, k) || vm.frames[k].asyncWrite {
        sector := swap.PushToSwap(p, vm.frames[k].bytes);
      }
      EvictedGood(v, w, k, sector);
      EvictedExactly(v, w, saved, k, sector, old(swap.Full()));
      EvictedRest(v, k, sector);
      vm := Evicted(vm, k, sector);
    }

    /** Makes a frame free by the second-chance rule. */
    method EvictFrame() returns (k: Kpage, ghost start: nat, ghost rev: nat, ghost x: nat)
      requires Valid() && exists j :: j in vm.frames && !vm.frames[j].pinned
      modifies this`vm, this`hand, swap
      ensures Standing(Some(k), None) && HandValid() && vm.list == old(vm).list && vm.tables == old(vm).tables
      ensures hand.Some? && (|vm.list| > 1 ==> hand != Some(k))
      ensures k in vm.frames && vm.frames[k] == Frame(None, false, false, ZeroPage(), true, true)
      ensures StartsAt(old(vm), old(hand), start)
      ensures k in old(vm).frames && SecondChance(old(vm), start, k, rev, x)
      ensures Memory() == AfterEviction(old(vm), old(Memory()), k, old(swap.Full()))
      ensures SameNonresident(old(vm), vm) && NoNewPins(old(vm), vm)
    {
      ghost var v := vm;
      ghost var next;
      k, start, next, rev, x := ChooseVictim();
      EndsInside(v, Clock(vm, Some(k), next), Where(swap.list), swap.Saved(), start, rev, x);
      OnlyBitsPins(v, vm);
      OnlyBitsNonresident(v, vm);
      AfterEvictionKept(v, vm, old(Memory()), k, swap.Full());
      EmptyFrame(k);
    }

    lemma SweepEnds(start: nat, j: Kpage) returns (c: Clock, rev: nat, x: nat)
      requires Standing(None, None) && start < |vm.list| && j in vm.frames && !vm.frames[j].pinned
      ensures Listed(vm) && c == ClockFrom(vm, start, start, 0)
      ensures Ends(vm, c, Where(swap.list), swap.Saved(), start, rev, x) == true
    {
      GoodListed(vm, Where(swap.list));
      c := ClockFrom(vm, start, start, 0);
      SweepStart(vm, start);
      assert Position(vm, start, 0) == start;
      rev, x := ClockTakes(vm, vm, Where(swap.list), swap.Saved(), start, 0, 0, j, c);
    }

    method Sweep(first: nat, ghost c: Clock) returns (k: Kpage, i: nat)
      requires Listed(vm) && first < |vm.list| && c == ClockFrom(vm, first, first, 0) && c.taken.Some?
      modifies this`vm
      ensures c == Clock(vm, Some(k), i)
    {
      i, k := first, vm.list[first];
      var revolution, found := 0, false;
      while revolution < 3 && !found
        invariant Listed(vm) && |vm.list| == |old(vm).list| && i < |vm.list|
        invariant !found ==> revolution < 3 && ClockFrom(vm, first, i, revolution) == c
        invariant found ==> c == Clock(vm, Some(k), i)
        decreases !found, 3 - revolution, if i < first then first - i else |vm.list| + first - i
      {
        k := vm.list[i];
        if revolution == 0 {
          found := !Pinned(vm, k) && (IsReadonly(vm, k) || (!IsAccessed(vm, k) && !IsDirty(vm, k)));
        } else if revolution == 1 {
          found := !Pinned(vm, k) && (IsReadonly(vm, k) || !IsDirty(vm, k));
        } else {
          found := !Pinned(vm, k);
        }
        VisitedListed(vm, k);
        vm := Visited(vm, k);
        i := if i + 1 == |vm.list| then 0 else i + 1;
        if i == first {
          revolution := revolution + 1;
        }
      }
    }

    /** A frame can be found: the pool has one or some frame is not pinned. */
    ghost predicate CanAllocate()
      reads this
    {
      pool != {} || exists j :: j in vm.frames && !vm.frames[j].pinned
    }

    /** Gives page p an all-zero frame with both dirty bits clear. */
    method AllocateFrame(p: Upage) returns (k: Kpage)
      requires Valid() && p in vm.pages && p != 0 && vm.pages[p].frame.None? && CanAllocate()
      modifies this, swap
      ensures vm.tables == old(vm).tables && SameImages(old(vm), vm) && NoNewPins(old(vm), vm)
      ensures Standing(None, Some(p)) && k in vm.list && HandValid() && (|vm.list| > 1 ==> hand != Some(k))
      ensures vm.pages[p].frame == Some(k) && vm.frames[k] == Frame(Some(p), false, false, ZeroPage(), false, true)
      ensures vm.pages[p].swap == old(vm).pages[p].swap
      ensures Memory() == if old(pool) == {} then AfterEviction(old(vm), old(Memory()), k, old(swap.Full())) else old(Memory())
      ensures old(pool) == {} ==> Victim(old(vm), old(hand), k) && hand.Some? && vm.list == old(vm).list
      ensures pool == old(pool) - {k} && (old(pool) != {} ==> k in old(pool))
    {
      hide FramesGood, PagesGood, View, AfterEviction, SecondChance;
      k := FindFrame();
      AttachedGood(vm, Where(swap.list), swap.Saved(), k, p);
      vm := Attached(vm, k, p);
    }

    /** A cleared frame, from the pool or else by eviction. */
    method FindFrame() returns (k: Kpage)
      requires Valid() && CanAllocate()
      modifies this, swap
      ensures vm.tables == old(vm).tables && SameNonresident(old(vm), vm) && NoNewPins(old(vm), vm)
      ensures Standing(Some(k), None) && k in vm.list && HandValid() && (|vm.list| > 1 ==> hand != Some(k))
      ensures k in vm.frames && vm.frames[k] == Frame(None, false, false, ZeroPage(), true, true)
      ensures Memory() == if old(pool) == {} then AfterEviction(old(vm), old(Memory()), k, old(swap.Full())) else old(Memory())
      ensures old(pool) == {} ==> Victim(old(vm), old(hand), k) && hand.Some? && vm.list == old(vm).list
      ensures pool == old(pool) - {k} && (old(pool) != {} ==> k in old(pool))
    {
      hide View, AfterEviction, SecondChance;
      if pool != {} {
        k := PoolFrame();
      } else {
        ghost var start, rev, x;
        k, start, rev, x := EvictFrame();
      }
    }

    /** A frame from the user pool, which joins the frame table. */
    method PoolFrame() returns (k: Kpage)
      requires Valid() && pool != {}
      modifies this`vm, this`pool
      ensures k in old(pool) && k !in old(vm).list && vm == WithFrame(old(vm), k) && pool == old(pool) - {k}
      ensures Standing(Some(k), None) && HandValid() && (|vm.list| > 1 ==> hand != Some(k))
      ensures Memory() == old(Memory())
    {
      k :| k in pool;
      WithFrameGood(vm, Where(swap.list), swap.Saved(), k);
      pool := pool - {k};
      assert k !in vm.list;
      vm := WithFrame(vm, k);
    }

    /**
     * Takes frame k away from page p and returns it to the pool. A page that is being loaded loses nothing; a mapped one
     * is its initial image again. The clock hand stays on a frame if and only if it was not on this one.
     */
    method FreeFrame(k: Kpage, p: Upage, ghost loading: Option<Upage>)
      requires Standing(None, loading) && p in vm.pages && vm.pages[p].frame == Some(k) && k in vm.list
      requires loading.Some? ==> loading == Some(p)
      modifies this`vm, this`pool
      ensures Standing(None, None)
      ensures Memory() == old(Memory())[p := AfterRelease(old(vm), swap.Saved(), p)]
      ensures loading == Some(p) ==> Memory() == old(Memory())
      ensures SameImages(old(vm), vm) && NoNewPins(old(vm), vm)
      ensures vm.pages[p].frame.None? && vm.list == Without(old(vm).list, k)
      ensures k !in vm.frames && pool == old(pool) + {k} && vm.pages[p].swap == old(vm).pages[p].swap
      ensures old(HandValid()) ==> (HandValid() <==> hand != Some(k))
    {
      hide FramesGood, PagesGood, View, AfterRelease;
      ReleasedGood(vm, Where(swap.list), k, p, loading);
      ReleasedView(vm, Where(swap.list), swap.Saved(), k, p, loading);
      if loading.Some? {
        SetBack(Memory(), p, Memory()[p]);
      }
      vm := Released(vm, k, p);
      pool := pool + {k};
    }

    /**
     * free_page_entry, for a page that is taken off its list: exactly that page leaves the memory, its frame goes to the
     * pool and its slot is free again. The clock hand stays on a frame if and only if it was not on the page's frame.
     */
    method FreePageEntry(p: Upage)
      requires Valid() && p in vm.pages
      modifies this`vm, this`pool, swap
      ensures Standing(None, None) && KindsOf(vm) == KindsOf(old(vm)) - {p} && NoNewPins(old(vm), vm)
      ensures vm.pages.Keys == old(vm).pages.Keys - {p} && (old(vm).pages[p].frame.None? ==> vm.list == old(vm).list)
      ensures Memory() == old(Memory()) - {p} && swap.Saved() == old(swap.Saved()) - {p}
      ensures HandValid() <==> hand.None? || hand != old(vm).pages[p].frame
      ensures pool == if old(vm).pages[p].frame.Some? then old(pool) + {old(vm).pages[p].frame.value} else old(pool)
    {
      hide FramesGood, PagesGood, View, Initial, AfterRelease;
      var e := vm.pages[p];
      FrameListed(vm, Where(swap.list), p);
      if e.frame.Some? {
        FreeFrame(e.frame.value, p, None);
      }
      DropPage(p);
      KindGone(old(vm), vm, p);
    }

    /** The rest of free_page_entry, for a page without a frame. */
    method DropPage(p: Upage)
      requires Standing(None, None) && p in vm.pages && vm.pages[p].frame.None?
      modifies this`vm, swap
      ensures Standing(None, None) && vm == WithoutPage(old(vm), p)
      ensures Memory() == old(Memory()) - {p} && swap.Saved() == old(swap.Saved()) - {p}
    {
      swap.SavedPages(p);
      assert PageGood(vm, Where(swap.list), None, p);
      WithoutPageGood(vm, Where(swap.list), p);
      WithoutPageView(vm, swap.Saved(), p);
      if vm.pages[p].swap.Some? {
        swap.ForgetPage(p);
      } else {
        assert Where(swap.list) - {p} == Where(swap.list) && swap.Saved() - {p} == swap.Saved();
      }
      vm := WithoutPage(vm, p);
    }

    /** Maps the loaded frame at p. It fails only when p's page table is missing and cannot be allocated. */
    method InstallFrame(k: Kpage, p: Upage, canAllocTable: bool) returns (ok: bool)
      requires Standing(None, Some(p)) && p in vm.pages && vm.pages[p].frame == Some(k) && k in vm.list
      requires vm.pages[p].swap.None? && k in vm.frames
      requires vm.frames[k].dirty || (vm.frames[k].bytes == ZeroPage() && vm.pages[p].image == [])
      modifies this`vm, this`pool
      ensures Standing(None, None)
      ensures ok <==> p / ENTRIES_PER_TABLE in old(vm).tables || canAllocTable
      ensures SameImages(old(vm), vm) && NoNewPins(old(vm), vm)
      ensures ok ==> vm.pages[p].pte.present && vm.list == old(vm).list && pool == old(pool)
      ensures ok ==> Memory() == old(Memory())[p := old(vm).frames[k].bytes]
      ensures !ok ==> vm.pages[p].frame.None? && vm.list == Without(old(vm).list, k) && pool == old(pool) + {k}
      ensures !ok ==> Memory() == old(Memory())
    {
      ok := p / ENTRIES_PER_TABLE in vm.tables || canAllocTable;
      if ok {
        assert PageGood(vm, Where(swap.list), Some(p), p);
        InstalledGood(vm, Where(swap.list), k, p);
        InstalledView(vm, swap.Saved(), k, p);
        vm := Installed(vm, k, p);
      } else {
        FreeFrame(k, p, Some(p));
      }
    }

    /** The saved bytes of page p back in its frame. */
    method FillFromSwap(k: Kpage, p: Upage)
      requires Standing(None, Some(p)) && p in vm.pages && vm.pages[p].frame == Some(k) && k in vm.list && k in vm.frames
      requires vm.pages[p].swap.Some?
      modifies this`vm, swap
      ensures Standing(None, Some(p)) && p in old(Memory()) && IsPage(old(Memory())[p])
      ensures SameImages(old(vm), vm) && NoNewPins(old(vm), vm)
      ensures vm.list == old(vm).list && vm.tables == old(vm).tables
      ensures vm.pages[p].frame == Some(k) && vm.pages[p].swap.None?
      ensures k in vm.frames && vm.frames[k].dirty && vm.frames[k].bytes == old(Memory())[p]
      ensures Memory() == old(Memory())[p := Initial(vm.pages[p].image)]
    {
      LoadingContent(vm, Where(swap.list), swap.Saved(), p);
      swap.SavedPages(p);
      FilledGood(vm, Where(swap.list), p, k, swap.Saved()[p]);
      UnswappedView(vm, Where(swap.list), swap.Saved(), p, k, swap.Saved()[p]);
      var bytes := swap.PullFromSwap(p);
      vm := Unswapped(Filled(vm, k, bytes.value), p);
    }

    /** The file's bytes for page p in its frame, zeros after them. */
    method FillFromFile(k: Kpage, p: Upage)
      requires Standing(None, Some(p)) && p in vm.pages && vm.pages[p].frame == Some(k) && k in vm.list && k in vm.frames
      requires vm.frames[k].bytes == ZeroPage()
      modifies this`vm
      ensures Standing(None, Some(p)) && Memory() == old(Memory())
      ensures vm.pages == old(vm).pages && vm.list == old(vm).list && vm.tables == old(vm).tables
      ensures NoNewPins(old(vm), vm)
      ensures k in vm.frames && vm.frames[k].dirty && vm.frames[k].bytes == Initial(vm.pages[p].image)
      ensures FileThenZeros(vm.frames[k].bytes, vm.pages[p].image)
    {
      assert PageGood(vm, Where(swap.list), Some(p), p);
      var image := vm.pages[p].image;
      InitialIs(image);
      FilledGood(vm, Where(swap.list), p, k, Initial(image));
      FilledView(vm, Where(swap.list), swap.Saved(), p, k, Initial(image));
      vm := Filled(vm, k, image + vm.frames[k].bytes[|image|..]);
    }

    /** Fills the frame from swap, from the file or not at all, then maps it or gives it back. */
    method FillAndInstall(k: Kpage, p: Upage, bytesRead: nat, canAllocTable: bool) returns (ok: bool)
      requires Standing(None, Some(p)) && p in vm.pages && vm.pages[p].frame == Some(k) && k in vm.list && k in vm.frames
      requires vm.frames[k].bytes == ZeroPage()
      modifies this, swap
      ensures Standing(None, None) && SameImages(old(vm), vm) && NoNewPins(old(vm), vm) && hand == old(hand)
      ensures Memory() == old(Memory())
      ensures ok <==> (old(vm).pages[p].swap.Some? || vm.pages[p].image == [] || bytesRead == |vm.pages[p].image|)
                      && (p / ENTRIES_PER_TABLE in old(vm).tables || canAllocTable)
      ensures ok ==> vm.pages[p].pte.present && vm.list == old(vm).list && pool == old(pool)
      ensures !ok ==> vm.pages[p].frame.None? && vm.list == Without(old(vm).list, k)
    {
      LoadingContent(vm, Where(swap.list), swap.Saved(), p);
      SetBack(Memory(), p, Initial(vm.pages[p].image));
      if vm.pages[p].swap.Some? {
        ok := SwapIn(k, p, canAllocTable);
      } else if vm.pages[p].image == [] {
        ok := InstallFrame(k, p, canAllocTable);
      } else if bytesRead == |vm.pages[p].image| {
        FillFromFile(k, p);
        ok := InstallFrame(k, p, canAllocTable);
      } else {
        FreeFrame(k, p, Some(p));
        ok := false;
      }
    }

    /** Fills the frame from swap, then maps it or gives it back. */
    method SwapIn(k: Kpage, p: Upage, canAllocTable: bool) returns (ok: bool)
      requires Standing(None, Some(p)) && p in vm.pages && vm.pages[p].frame == Some(k) && k in vm.list && k in vm.frames
      requires vm.pages[p].swap.Some?
      modifies this`vm, this`pool, swap
      ensures Standing(None, None) && SameImages(old(vm), vm) && NoNewPins(old(vm), vm)
      ensures Memory() == old(Memory())
      ensures ok <==> p / ENTRIES_PER_TABLE in old(vm).tables || canAllocTable
      ensures ok ==> vm.pages[p].pte.present && vm.list == old(vm).list && pool == old(pool)
      ensures !ok ==> vm.pages[p].frame.None? && vm.list == Without(old(vm).list, k)
    {
      LoadingContent(vm, Where(swap.list), swap.Saved(), p);
      SetBack(Memory(), p, Initial(vm.pages[p].image));
      FillFromSwap(k, p);
      ok := InstallFrame(k, p, canAllocTable);
    }

    /** A frame for page p, filled and mapped. */
    method BringIn(p: Upage, bytesRead: nat, canAllocTable: bool) returns (ok: bool, ghost k: Kpage)
      requires Valid() && p in vm.pages && p != 0 && vm.pages[p].frame.None? && CanAllocate()
      modifies this, swap
      ensures Standing(None, None) && SameImages(old(vm), vm) && NoNewPins(old(vm), vm)
      ensures Memory() == if old(pool) == {} then AfterEviction(old(vm), old(Memory()), k, old(swap.Full())) else old(Memory())
      ensures old(pool) == {} ==> Victim(old(vm), old(hand), k) && hand.Some? && (ok ==> vm.list == old(vm).list)
      ensures (old(pool) != {} ==> k in old(pool)) && (ok ==> pool == old(pool) - {k})
      ensures ok <==> (old(vm).pages[p].swap.Some? || vm.pages[p].image == [] || bytesRead == |vm.pages[p].image|)
                      && (p / ENTRIES_PER_TABLE in old(vm).tables || canAllocTable)
      ensures ok ==> HandValid() && vm.pages[p].pte.present && vm.list != []
      ensures !ok ==> vm.pages[p].frame.None? && (HandValid() <==> hand.None? || vm.list != [])
      ensures ok <==> k in vm.list
    {
      var fp := AllocateFrame(p);
      k := fp;
      WithoutMembers(vm.list, fp);
      WithoutLength(vm.list, fp);
      ok := FillAndInstall(fp, p, bytesRead, canAllocTable);
    }

    /** Brings page p into memory. `bytesRead` is what reading its file gave. Success or not, no byte of the process's
        memory changes while swap has room; a failure leaves the hand on a freed frame only if that was the last one. */
    method LoadPageEntry(p: Upage, bytesRead: nat, canAllocTable: bool) returns (ok: bool, ghost k: Kpage)
      requires Valid() && p in vm.pages && p != 0 && vm.pages[p].frame.None? && CanAllocate()
      modifies this, swap
      ensures Standing(None, None) && SameImages(old(vm), vm) && NoNewPins(old(vm), vm)
      ensures Memory() == if old(pool) == {} then AfterEviction(old(vm), old(Memory()), k, old(swap.Full())) else old(Memory())
      ensures old(pool) == {} ==> Victim(old(vm), old(hand), k) && hand.Some? && (ok ==> vm.list == old(vm).list)
      ensures (old(pool) != {} ==> k in old(pool)) && (ok ==> pool == old(pool) - {k})
      ensures ok <==> (old(vm).pages[p].swap.Some? || vm.pages[p].image == [] || bytesRead == |vm.pages[p].image|)
                      && (p / ENTRIES_PER_TABLE in old(vm).tables || canAllocTable)
      ensures ok ==> HandValid() && vm.pages[p].pte.present && vm.list != []
      ensures !ok ==> vm.pages[p].frame.None? && (HandValid() <==> hand.None? || vm.list != [])
      ensures ok <==> k in vm.list
      ensures p in Memory() && p in old(Memory())
      ensures old(vm).pages[p].swap.Some? ==> p in old(swap.Saved()) && Memory()[p] == old(swap.Saved())[p]
      ensures old(vm).pages[p].swap.None? ==> FileThenZeros(Memory()[p], vm.pages[p].image)
    {
      Waiting(p);
      ghost var before, m, full := vm, Memory(), swap.Full();
      ok, k := BringIn(p, bytesRead, canAllocTable);
      EvictsAnother(before, m, k, full, p);
    }

    /** A page without a frame is in swap, or what its file gives; the page of another frame's eviction is another page. */
    lemma Waiting(p: Upage)
      requires Valid() && p in vm.pages && vm.pages[p].frame.None?
      ensures p in Memory()
      ensures vm.pages[p].swap.Some? ==> p in swap.Saved() && Memory()[p] == swap.Saved()[p]
      ensures vm.pages[p].swap.None? ==> FileThenZeros(Memory()[p], vm.pages[p].image)
      ensures forall k :: k in vm.frames ==> vm.frames[k].upage != Some(p)
    {
      swap.SavedPages(p);
      assert PageGood(vm, Where(swap.list), None, p);
      InitialIs(vm.pages[p].image);
      forall k | k in vm.frames
        ensures vm.frames[k].upage != Some(p)
      {
        assert FrameGood(vm, None, k);
      }
    }

    /** With a slot for every page of the process, a frame to evict implies a slot to evict it to. */
    lemma RoomForVictim(k: Kpage)
      requires Valid() && k in vm.frames && swap.size >= |vm.pages| * SECTORS_PER_PAGE
      ensures !swap.Full()
    {
      var w := Where(swap.list);
      assert FrameGood(vm, None, k);
      var p := vm.frames[k].upage.value;
      assert PageGood(vm, w, None, p);
      assert p !in w;
      assert |vm.pages.Keys - {p}| == |vm.pages.Keys| - 1;
      if swap.Full() {
        WhereCount(swap.list);
        SubsetSize(w.Keys, vm.pages.Keys - {p});
      }
    }

    lemma SubsetSize(a: set<Upage>, b: set<Upage>)
      requires a <= b
      ensures |a| <= |b|
    {
      if a != {} {
        var x :| x in a;
        SubsetSize(a - {x}, b - {x});
      }
    }

    /** Registers the page around a user address; an address that already has a page gets that one. */
    method AllocatePage(uaddr: nat, stale: Pte) returns (p: Option<Upage>)
      requires Valid() && !stale.present
      modifies this`vm
      ensures Valid()
      ensures p.None? <==> uaddr / PAGE_SIZE !in old(vm).pages && (uaddr == 0 || uaddr >= PHYS_BASE)
      ensures p.Some? ==> p.value == uaddr / PAGE_SIZE && p.value in vm.pages
      ensures vm == if p.Some? && p.value !in old(vm).pages then WithPage(old(vm), p.value, true, [], stale) else old(vm)
      ensures Memory() == if p.Some? && p.value !in old(vm).pages then old(Memory())[p.value := ZeroPage()] else old(Memory())
    {
      var page := uaddr / PAGE_SIZE;
      if page in vm.pages {
        p := Some(page);
      } else if uaddr >= PHYS_BASE || uaddr == 0 {
        p := None;
      } else {
        swap.SavedPages(page);
        WithPageGood(vm, Where(swap.list), page, true, [], stale);
        WithPageView(vm, swap.Saved(), page, true, [], stale);
        vm := WithPage(vm, page, true, [], stale);
        p := Some(page);
      }
    }

    /** No frame is pinned between operations, and there is at least one frame to work with. */
    ghost predicate Runnable()
      reads this, swap
    {
      Valid() && (forall k :: !Pinned(vm, k)) && (pool != {} || vm.list != [])
    }

    ghost function Snapshot(): Machine
      requires swap.Valid()
      reads this, swap
    {
      Machine(vm, hand, pool, Where(swap.list), swap.Saved(), swap.size)
    }

    lemma SnapshotShows(fetched: seq<Byte>)
      requires Valid()
      ensures Shows(Snapshot(), FlatView(fetched))
    {
      swap.SavedPages(0);
    }

    /** Page fault handling: page p is mapped afterwards, and no byte of memory has changed save those of a page lost. */
    method Fault(p: Upage, ghost a: Access) returns (ghost loss: Option<Upage>)
      requires Runnable() && Allowed(KindsOf(vm), a) && (a.Fetch? || a.Store?) && a.page == p && !Halts(vm, hand, a)
      modifies this, swap
      ensures Runnable() && Memory() == Forgot(old(Memory()), KindsOf(vm), loss) && SameImages(old(vm), vm)
      ensures p in vm.pages && vm.pages[p].pte.present && Loses(old(Snapshot()), a, loss)
      ensures swap.size >= |old(vm).pages| * SECTORS_PER_PAGE ==> loss.None?
    {
      assert PageGood(vm, Where(swap.list), None, p);
      swap.FullIs();
      loss := None;
      if !vm.pages[p].pte.present {
        if pool == {} {
          assert vm.list[0] in vm.list;
          assert !Pinned(vm, vm.list[0]);
          if swap.size >= |vm.pages| * SECTORS_PER_PAGE {
            RoomForVictim(vm.list[0]);
          }
        }
        var ok, k := LoadPageEntry(p, |vm.pages[p].image|, true);
        if old(pool) == {} {
          loss := LossOf(old(vm), k, old(swap.Full()));
          AfterEvictionForgets(old(vm), old(Memory()), k, old(swap.Full()));
        }
        SameKinds(old(vm), vm);
      }
    }

    /** A user load, with the page fault it may cause. */
    method FetchByte(p: Upage, ofs: nat) returns (b: Byte, ghost loss: Option<Upage>)
      requires Runnable() && Allowed(KindsOf(vm), Fetch(p, ofs)) && !Halts(vm, hand, Fetch(p, ofs))
      modifies this, swap
      ensures Runnable() && Memory() == Forgot(old(Memory()), KindsOf(vm), loss) && SameImages(old(vm), vm)
      ensures p in Memory() && IsPage(Memory()[p]) && b == Memory()[p][ofs]
      ensures Loses(old(Snapshot()), Fetch(p, ofs), loss)
      ensures swap.size >= |old(vm).pages| * SECTORS_PER_PAGE ==> loss.None?
    {
      loss := Fault(p, Fetch(p, ofs));
      MappedFrame(vm, Where(swap.list), p);
      FetchedGood(vm, Where(swap.list), p);
      FetchedView(vm, swap.Saved(), p);
      b := vm.frames[vm.pages[p].pte.kpage].bytes[ofs];
      vm := Fetched(vm, p);
    }

    /** A user store, with the page fault it may cause. */
    method StoreByte(p: Upage, ofs: nat, b: Byte) returns (ghost loss: Option<Upage>)
      requires Runnable() && Allowed(KindsOf(vm), Store(p, ofs, b)) && !Halts(vm, hand, Store(p, ofs, b))
      modifies this, swap
      ensures Runnable() && SameImages(old(vm), vm)
      ensures var m := Forgot(old(Memory()), KindsOf(vm), loss);
              p in m && IsPage(m[p]) && Memory() == m[p := m[p][ofs := b]]
      ensures Loses(old(Snapshot()), Store(p, ofs, b), loss)
      ensures swap.size >= |old(vm).pages| * SECTORS_PER_PAGE ==> loss.None?
    {
      loss := Fault(p, Store(p, ofs, b));
      StoreMapped(p, ofs, b);
    }

    /** A store to a page that is mapped, as the MMU carries it out. */
    method StoreMapped(p: Upage, ofs: nat, b: Byte)
      requires Runnable() && p in vm.pages && ofs < PAGE_SIZE && vm.pages[p].pte.present
      modifies this`vm
      ensures Runnable() && SameImages(old(vm), vm)
      ensures p in old(Memory()) && IsPage(old(Memory())[p])
      ensures Memory() == old(Memory())[p := old(Memory())[p][ofs := b]]
      ensures p in vm.pages && vm.pages[p].pte.present && Marked(vm, vm.pages[p].pte.kpage)
    {
      MappedFrame(vm, Where(swap.list), p);
      StoredGood(vm, Where(swap.list), p, ofs, b);
      StoredView(vm, Where(swap.list), swap.Saved(), p, ofs, b);
      vm := Stored(vm, p, ofs, b);
    }

    ghost function FlatView(fetched: seq<Byte>): FlatMemory
      requires swap.Valid()
      reads this, swap
    {
      FlatMemory(Memory(), KindsOf(vm), fetched)
    }

    /** One access, as a flat memory would do it but for the page that it loses. */
    method Step(a: Access, sofar: seq<Byte>) returns (fetched: seq<Byte>, ghost loss: Option<Upage>)
      requires Runnable() && !Halts(vm, hand, a)
      modifies this, swap
      ensures Runnable() && Loses(old(Snapshot()), a, loss)
      ensures swap.size >= |old(vm).pages| * SECTORS_PER_PAGE ==> loss.None?
      ensures FlatView(fetched) == LossyAccess(old(FlatView(sofar)), a, loss)
    {
      fetched, loss := sofar, None;
      if !Allowed(KindsOf(vm), a) {
        return;
      }
      match a
      case Fetch(p, ofs) =>
        var b;
        b, loss := FetchByte(p, ofs);
        SameKinds(old(vm), vm);
        fetched := sofar + [b];
      case Store(p, ofs, b) =>
        loss := StoreByte(p, ofs, b);
        SameKinds(old(vm), vm);
      case NewPage(uaddr, stale) =>
        var p := AllocatePage(uaddr, stale);
        NewKind(old(vm), uaddr / PAGE_SIZE, stale);
      case FreePage(p) =>
        FreePageEntry(p);
    }

    /**
     * Paging is transparent: whatever is faulted in and evicted on the way, a run of accesses fetches the bytes that a
     * flat memory would and leaves the memory that it would. Pages are lost only to evictions that find swap full, and
     * none while there is a slot for every page. A run ends before its last access only where `Halts` says so.
     */
    method Run(accesses: seq<Access>)
      returns (fetched: seq<Byte>, n: nat, ghost losses: seq<Option<Upage>>, ghost trace: seq<Machine>)
      requires Runnable()
      modifies this, swap
      ensures n <= |accesses| && Runnable() && IsRun(old(FlatView([])), trace, accesses[..n], losses)
      ensures n < |accesses| ==> Halts(vm, hand, accesses[n])
      ensures trace[0] == old(Snapshot()) && trace[n] == Snapshot()
      ensures FlatView(fetched) == Flat(old(FlatView([])), accesses[..n], losses)
      ensures forall i :: 0 <= i < n && swap.size >= |trace[i].vm.pages| * SECTORS_PER_PAGE ==> losses[i].None?
    {
      hide FramesGood, PagesGood, View, KindsOf, Loses, LossyAccess, Shows, Halts, IsRun, Flat;
      fetched, losses, trace := [], [], [Snapshot()];
      ghost var f := FlatView([]);
      SnapshotShows([]);
      RunStarts(f, Snapshot());
      n := 0;
      while n < |accesses| && !Halts(vm, hand, accesses[n])
        invariant n <= |accesses| && Runnable() && IsRun(f, trace, accesses[..n], losses)
        invariant |trace| == n + 1 && |losses| == n && trace[0] == old(Snapshot()) && trace[n] == Snapshot()
        invariant FlatView(fetched) == Flat(f, accesses[..n], losses)
        invariant forall j :: 0 <= j < n && swap.size >= |trace[j].vm.pages| * SECTORS_PER_PAGE ==> losses[j].None?
      {
        ghost var loss;
        fetched, loss := Step(accesses[n], fetched);
        SnapshotShows(fetched);
        RunNext(f, trace, accesses[..n], losses, accesses[n], loss, Snapshot());
        FlatNext(f, accesses[..n], losses, accesses[n], loss);
        assert accesses[..n] + [accesses[n]] == accesses[..n + 1];
        n, losses, trace := n + 1, losses + [loss], trace + [Snapshot()];
      }
    }
  }

  /** One page, without an image, in memory and modified; and swap without a slot. */
  ghost predicate OneWritten(v: Vm, size: nat) {
    && v.pages.Keys == {1} && v.pages[1].image == [] && size == 0
    && v.pages[1].pte.present && Marked(v, v.pages[1].pte.kpage) && forall k :: !Pinned(v, k)
  }

  /** Page 1 is registered, loaded and written to. */
  method WriteOne() returns (pager: Pager)
    ensures fresh(pager) && fresh(pager.swap) && pager.Valid() && OneWritten(pager.vm, pager.swap.size)
    ensures 1 in pager.Memory() && pager.Memory()[1] == ZeroPage()[0 := 7] && pager.pool == {}
  {
    hide Good, View, Initial;
    var swap := new SwapTable(0, map[]);
    pager := new Pager(swap, {1});
    var p := pager.AllocatePage(0x1000, Pte(false, 0, false, false, false));
    var ok, k := pager.LoadPageEntry(1, 0, true);
    pager.StoreMapped(1, 0, 7);
  }

  lemma OneFrame(v: Vm, w: map<Upage, nat>, size: nat, k: Kpage)
    requires Good(v, w, None, None) && OneWritten(v, size) && k in v.frames
    ensures v.frames[k].upage == Some(1) && Marked(v, k) && v.pages[1].pte.kpage in v.frames
  {
    assert FrameGood(v, None, k) && PageGood(v, w, None, 1);
  }

  /**
   * A modified page that is lost: swap has no slot, page 1 is loaded and written, and its frame is evicted. A store of 7
   * is gone and the page reads as zeros.
   */
  method LosingEviction() returns (pager: Pager, ghost before: map<Upage, seq<Byte>>)
    ensures pager.swap.Valid() && 1 in before && before[1] == ZeroPage()[0 := 7]
    ensures 1 in pager.Memory() && pager.Memory()[1] == ZeroPage()
  {
    hide Good, View;
    pager := WriteOne();
    before := pager.Memory();
    ghost var v, w := pager.vm, Where(pager.swap.list);
    OneFrame(v, w, 0, v.pages[1].pte.kpage);
    pager.swap.NoSlots();
    assert !Pinned(v, v.pages[1].pte.kpage);
    var victim, start, rev, x := pager.EvictFrame();
    OneFrame(v, w, 0, victim);
  }

  /** All frames are the same one where there is only one page. */
  lemma OneListed(v: Vm, w: map<Upage, nat>, size: nat)
    requires Good(v, w, None, None) && OneWritten(v, size)
    ensures v.list == [v.pages[1].pte.kpage]
  {
    assert PageGood(v, w, None, 1);
    var k := v.pages[1].pte.kpage;
    forall i | 0 <= i < |v.list|
      ensures v.list[i] == k
    {
      assert v.list[i] in v.list;
      assert FrameGood(v, None, v.list[i]);
    }
    assert k in v.list;
    FirstsDiffer(v.list);
  }

  lemma FirstsDiffer(s: seq<Kpage>)
    requires Distinct(s)
    ensures |s| > 1 ==> s[0] != s[1]
  {
  }

  /** Page 2 takes over the only frame, and the clock hand is on that. */
  method HandOnFrame() returns (pager: Pager)
    ensures fresh(pager) && fresh(pager.swap) && pager.Valid()
    ensures 2 in pager.vm.pages && pager.hand.Some? && pager.hand == pager.vm.pages[2].frame
  {
    hide FramesGood, PagesGood, View;
    pager := WriteOne();
    ghost var v, w := pager.vm, Where(pager.swap.list);
    OneListed(v, w, 0);
    OneFrame(v, w, 0, v.pages[1].pte.kpage);
    assert !Pinned(v, v.pages[1].pte.kpage);
    var p := pager.AllocatePage(0x2000, Pte(false, 0, false, false, false));
    var ok, k := pager.LoadPageEntry(2, 0, true);
    FrameListed(pager.vm, Where(pager.swap.list), 2);
  }

  /** A hand that is lost: the page whose frame the clock hand is on is freed, and the hand is on no frame of the table. */
  method LostHand() returns (pager: Pager)
    ensures pager.Standing(None, None) && !pager.HandValid()
  {
    pager := HandOnFrame();
    pager.FreePageEntry(2);
  }
}
