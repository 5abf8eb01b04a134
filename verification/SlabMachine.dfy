/**
 What the three allocators mean together: the state that heap_cream.c keeps spread over the page tag table, the slab
 tables and the `mothermary` slots, its operations as functions, and what every run of them keeps.
 */
module SlabMachine {
  import opened Bytes
  import opened TagTable
  import PageHeap
  import H = Heap32
  import opened KernelHeap

  const MAX_4KB_HEAP: nat := 124

  /**
   - tags: the page tag table
   - heads: the first 124 bytes of every page
   - slots: the pages registered in `mothermary`, None for a zero word
   - mother: the page that holds `mothermary`, once it has been obtained
   - kept: the extents handed out by kmalloc, which nobody ever frees
   */
  datatype Slabs = Slabs(
    tags: Table,
    heads: seq<Table>,
    slots: seq<Option<nat>>,
    mother: Option<nat>,
    kept: set<Extent>)

  /** A block handed out by the slab layer: entry `index` of the table of page `page`. */
  datatype Block = Block(page: nat, index: nat)

  function Address(b: Block): nat {
    H.BlockAddress(PageAddress(b.page), b.index)
  }

  ghost predicate Shape(s: Slabs) {
    && |s.tags| == PAGES && |s.heads| == PAGES && |s.slots| == MAX_4KB_HEAP
    && (forall p :: 0 <= p < PAGES ==> |s.heads[p]| == H.TABLE_SIZE)
    && (forall i :: 0 <= i < MAX_4KB_HEAP && s.slots[i].Some? ==> s.slots[i].value < PAGES)
    && (s.mother.Some? ==> s.mother.value < PAGES)
  }

  // ----- The operations

  ghost function Boot(): Slabs {
    Slabs(AllFree(PAGES), seq(PAGES, _ => AllFree(H.TABLE_SIZE)), seq(MAX_4KB_HEAP, _ => None), None, {})
  }

  /** kmalloc by code that never frees what it gets (page tables, stream objects). */
  ghost function Kmalloc(s: Slabs, size: uint32): Slabs {
    var n := PageHeap.BlockCount(size);
    match Place(s.tags, n)
    case (_, None) => s
    case (t, Some(p)) => s.(tags := t, kept := s.kept + {Extent(p, n)})
  }

  /** A client stores a byte at `addr`, which matters here only at the head of a page it got from kmalloc. */
  ghost function Store(s: Slabs, p: nat, offset: nat, b: byte): Slabs
    requires Shape(s) && p < PAGES
  {
    if offset < H.TABLE_SIZE then s.(heads := s.heads[p := Put(s.heads[p], offset, b)]) else s
  }

  /** Obtains the page for `mothermary`. */
  ghost function Help(s: Slabs): Slabs
    requires Shape(s)
  {
    match Place(s.tags, 1)
    case (_, None) => s
    case (t, Some(p)) => s.(tags := t, heads := s.heads[p := Put(s.heads[p], 0, FREE)], mother := Some(p))
  }

  /** First slot from i on that is zero, or the number of slots: where both scans stop. */
  ghost function FirstHole(slots: seq<Option<nat>>, i: nat): (r: nat)
    requires i <= |slots|
    ensures i <= r <= |slots|
    ensures r < |slots| ==> slots[r].None?
    ensures forall k :: i <= k < r ==> slots[k].Some?
    decreases |slots| - i
  {
    if i == |slots| || slots[i].None? then i else FirstHole(slots, i + 1)
  }

  ghost predicate Fits(s: Slabs, i: nat, n: nat)
    requires Shape(s) && i < MAX_4KB_HEAP && s.slots[i].Some?
  {
    FirstFit(s.heads[s.slots[i].value], n).Some?
  }

  /** First slot from i on that is zero or whose page has room for n blocks. */
  ghost function FirstRoom(s: Slabs, n: nat, i: nat): (r: nat)
    requires Shape(s) && i <= MAX_4KB_HEAP
    ensures i <= r <= MAX_4KB_HEAP
    ensures r < MAX_4KB_HEAP && s.slots[r].Some? ==> Fits(s, r, n)
    ensures forall k :: i <= k < r ==> s.slots[k].Some? && !Fits(s, k, n)
    decreases |s.slots| - i
  {
    if i == MAX_4KB_HEAP || s.slots[i].None? || Fits(s, i, n) then i else FirstRoom(s, n, i + 1)
  }

  /** malloc_32 on one page. */
  ghost function PlaceInPage(s: Slabs, p: nat, n: nat): (r: (Slabs, Option<Block>))
    requires Shape(s) && p < PAGES
  {
    match Place(s.heads[p], n)
    case (_, None) => (s, None)
    case (t, Some(k)) => (s.(heads := s.heads[p := t]), Some(Block(p, k)))
  }

  /** Registers the page that kzalloc(1) returned: only its first byte has been cleared. */
  ghost function Register(s: Slabs, i: nat, t: Table, p: nat): Slabs
    requires Shape(s) && i < MAX_4KB_HEAP && p < PAGES
  {
    s.(tags := t, heads := s.heads[p := Put(s.heads[p], 0, FREE)], slots := s.slots[i := Some(p)])
  }

  ghost function Malloc(s: Slabs, size: uint32): (r: (Slabs, Option<Block>))
    requires Shape(s)
    ensures Shape(r.0)
  {
    var n := H.Blocks(size);
    if size > H.TOTAL_BYTES_AVAIL then (s, None)
    else
      var i := FirstRoom(s, n, 0);
      if i == MAX_4KB_HEAP then (s, None)
      else if s.slots[i].Some? then PlaceInPage(s, s.slots[i].value, n)
      else
        match Place(s.tags, 1)
        case (_, None) => (s, None)
        case (t, Some(p)) => PlaceInPage(Register(s, i, t, p), p, n)
  }

  /** `addr` is a place of page p where a block can start, and one does. */
  predicate Hits(s: Slabs, p: nat, addr: nat)
    requires Shape(s) && p < PAGES
  {
    && PageAddress(p) + H.DATA_OFFSET_BYTES <= addr < PageAddress(p) + H.PAGE_BYTES
    && (addr - PageAddress(p) - H.DATA_OFFSET_BYTES) % H.SIZE_OF_BLOCK_BYTE == 0
    && Release(s.heads[p], (addr - PageAddress(p) - H.DATA_OFFSET_BYTES) / H.SIZE_OF_BLOCK_BYTE).1
  }

  /** heap32_free on page p: clears the tags of the block at `addr`. */
  ghost function ClearBlock(s: Slabs, p: nat, addr: nat): (r: Slabs)
    requires Shape(s) && p < PAGES && Hits(s, p, addr)
    ensures Shape(r)
  {
    var index := (addr - PageAddress(p) - H.DATA_OFFSET_BYTES) / H.SIZE_OF_BLOCK_BYTE;
    s.(heads := s.heads[p := Release(s.heads[p], index).0])
  }

  /** heap_cream_kill: gives the page of slot i back and leaves a zero in the slot. */
  ghost function Retire(s: Slabs, i: nat): (r: Slabs)
    requires Shape(s) && i < MAX_4KB_HEAP && s.slots[i].Some?
    ensures Shape(r)
  {
    s.(tags := Release(s.tags, s.slots[i].value).0, slots := s.slots[i := None])
  }

  /** Frees the block at `addr` in the page of slot i, and the page with it if that was the last block. */
  ghost function FreeInSlot(s: Slabs, i: nat, addr: nat): (r: Slabs)
    requires Shape(s) && i < MAX_4KB_HEAP && s.slots[i].Some? && Hits(s, s.slots[i].value, addr)
    ensures Shape(r)
  {
    var s1 := ClearBlock(s, s.slots[i].value, addr);
    if s1.heads[s.slots[i].value] == AllFree(H.TABLE_SIZE) then Retire(s1, i) else s1
  }

  /** First slot from i on that is zero or whose page has a live block at `addr`. */
  ghost function FirstHit(s: Slabs, addr: nat, i: nat): (r: nat)
    requires Shape(s) && i <= MAX_4KB_HEAP
    ensures i <= r <= MAX_4KB_HEAP
    ensures r < MAX_4KB_HEAP && s.slots[r].Some? ==> Hits(s, s.slots[r].value, addr)
    ensures forall k :: i <= k < r ==> s.slots[k].Some? && !Hits(s, s.slots[k].value, addr)
    decreases |s.slots| - i
  {
    if i == MAX_4KB_HEAP || s.slots[i].None? || Hits(s, s.slots[i].value, addr) then i else FirstHit(s, addr, i + 1)
  }

  ghost function Free(s: Slabs, addr: nat): (r: (Slabs, bool))
    requires Shape(s)
    ensures Shape(r.0)
  {
    var i := FirstHit(s, addr, 0);
    if i == MAX_4KB_HEAP || s.slots[i].None? then (s, false) else (FreeInSlot(s, i, addr), true)
  }

  // ----- The invariant

  ghost predicate Registered(s: Slabs, p: nat) {
    exists i :: 0 <= i < |s.slots| && s.slots[i] == Some(p)
  }

  ghost predicate Owned(s: Slabs, e: Extent) {
    e in s.kept || s.mother == Some(e.start) || Registered(s, e.start)
  }

  /** Every page extent has exactly one owner, slab and `mothermary` pages are single pages, free pages are clean. */
  ghost predicate Inv(s: Slabs) {
    && Shape(s)
    && WellFormed(s.tags)
    && (s.mother.Some? ==> s.tags[s.mother.value] == SINGLE)
    && (forall i :: 0 <= i < MAX_4KB_HEAP && s.slots[i].Some? ==>
          && s.tags[s.slots[i].value] == SINGLE
          && s.mother.Some? && s.slots[i] != s.mother
          && WellFormed(s.heads[s.slots[i].value]))
    && (forall i, j :: 0 <= i < j < MAX_4KB_HEAP && s.slots[i].Some? ==> s.slots[i] != s.slots[j])
    && (forall e :: e in s.kept ==> IsExtent(s.tags, e) && s.mother != Some(e.start) && !Registered(s, e.start))
    && (forall e :: IsExtent(s.tags, e) ==> Owned(s, e))
    && (forall p :: 0 <= p < PAGES && s.tags[p] == FREE ==> s.heads[p] == AllFree(H.TABLE_SIZE))
  }

  /** Every registered page, hidden ones included, holds a live block. */
  ghost predicate Occupied(s: Slabs)
    requires Shape(s)
  {
    forall i :: 0 <= i < MAX_4KB_HEAP && s.slots[i].Some? ==> s.heads[s.slots[i].value] != AllFree(H.TABLE_SIZE)
  }

  /** A live block: `e` counts 32-byte blocks inside page `page`. */
  datatype Live = Live(page: nat, e: Extent)

  ghost function LiveBlocks(s: Slabs): (r: set<Live>)
    requires Shape(s)
    ensures forall b :: b in r <==> Registered(s, b.page) && b.page < PAGES && IsExtent(s.heads[b.page], b.e)
  {
    set i, e | 0 <= i < MAX_4KB_HEAP && s.slots[i].Some? && e in Extents(s.heads[s.slots[i].value]) ::
      Live(s.slots[i].value, e)
  }

  lemma AllFreeHasNoExtent(t: Table)
    requires WellFormed(t)
    ensures t == AllFree(|t|) <==> Extents(t) == {}
  {
    forall e | t == AllFree(|t|) && IsExtent(t, e) ensures false {
      ExtentHoldsNoFree(t, e, e.start);
    }
    if Extents(t) == {} {
      forall i | 0 <= i < |t| ensures t[i] == FREE {
        if t[i] != FREE { var e := Owner(t, i); }
      }
    }
  }

  lemma SingleExtent(t: Table, p: nat)
    requires WellFormed(t) && p < |t| && t[p] == SINGLE
    ensures IsExtent(t, Extent(p, 1))
    ensures forall e :: IsExtent(t, e) && e.start == p ==> e == Extent(p, 1)
  {
    forall e | IsExtent(t, e) && e.start == p ensures e == Extent(p, 1) {
      OneOwner(t, e, Extent(p, 1), p);
    }
  }

  lemma AllFreeWellFormed(n: nat)
    ensures WellFormed(AllFree(n))
  {
    forall i | 0 <= i < |AllFree(n)| ensures Linked(AllFree(n), i) {}
  }

  lemma BootInv()
    ensures Inv(Boot()) && Occupied(Boot())
  {
    AllFreeWellFormed(PAGES);
    AllFreeHasNoExtent(AllFree(PAGES));
    assert Extents(AllFree(PAGES)) == {};
  }

  // ----- Every operation keeps the invariant

  /** The slab layer starts on a kernel heap that is in use already: what others hold is kept. */
  ghost function BootWith(tags: Table, heads: seq<Table>): Slabs {
    Slabs(tags, heads, seq(MAX_4KB_HEAP, _ => None), None, Extents(tags))
  }

  lemma BootWithInv(tags: Table, heads: seq<Table>)
    requires |tags| == PAGES && |heads| == PAGES && WellFormed(tags)
    requires forall p :: 0 <= p < PAGES ==>
              |heads[p]| == H.TABLE_SIZE && (tags[p] == FREE ==> heads[p] == AllFree(H.TABLE_SIZE))
    ensures Inv(BootWith(tags, heads)) && Occupied(BootWith(tags, heads))
  {
  }

  /** On a heap where nothing is in use that is the state after kheap_init. */
  lemma BootWithNothing(heads: seq<Table>)
    requires |heads| == PAGES && forall p :: 0 <= p < PAGES ==> heads[p] == AllFree(H.TABLE_SIZE)
    ensures BootWith(AllFree(PAGES), heads) == Boot()
  {
    AllFreeWellFormed(PAGES);
    AllFreeHasNoExtent(AllFree(PAGES));
    assert heads == Boot().heads;
  }

  /** A page taken from the free ones had no owner, and every page that had one keeps its tag. */
  lemma TakePages(s: Slabs, n: nat)
    requires Inv(s) && Place(s.tags, n).1.Some?
    ensures var (t, at) := Place(s.tags, n);
      && WellFormed(t)
      && Extents(t) == Extents(s.tags) + {Extent(at.value, n)}
      && 0 < n && at.value + n <= PAGES
      && (forall q :: 0 <= q < PAGES && s.tags[q] != FREE ==> t[q] == s.tags[q])
      && (forall q :: 0 <= q < PAGES && t[q] == FREE ==> s.tags[q] == FREE)
      && (forall q :: at.value <= q < at.value + n ==> s.tags[q] == FREE)
      && s.heads[at.value] == AllFree(H.TABLE_SIZE)
      && s.mother != Some(at.value) && !Registered(s, at.value)
      && (n == 1 ==> t[at.value] == SINGLE)
  {
    PlaceMeaning(s.tags, n);
  }

  lemma KmallocInv(s: Slabs, size: uint32)
    requires Inv(s)
    ensures Inv(Kmalloc(s, size))
    ensures Occupied(s) ==> Occupied(Kmalloc(s, size))
  {
    var n := PageHeap.BlockCount(size);
    var s' := Kmalloc(s, size);
    if Place(s.tags, n).1.Some? {
      TakePages(s, n);
      assert s'.slots == s.slots;
      forall e | IsExtent(s'.tags, e) ensures Owned(s', e) {
        assert e in Extents(s'.tags);
        if e in Extents(s.tags) { assert Owned(s, e); }
      }
      forall e | e in s'.kept ensures IsExtent(s'.tags, e) && s'.mother != Some(e.start) && !Registered(s', e.start) {
        assert e in s.kept ==> e in Extents(s'.tags);
      }
    }
  }

  lemma HelpInv(s: Slabs)
    requires Inv(s) && s.mother.None?
    ensures Inv(Help(s))
    ensures Help(s).mother.Some? <==> 0 < FreeCount(s.tags)
  {
    SingleFits(s.tags);
    var s' := Help(s);
    if s'.mother.Some? {
      TakePages(s, 1);
      var p := s'.mother.value;
      assert Put(s.heads[p], 0, FREE) == s.heads[p];
      assert s'.heads == s.heads;
      forall e | IsExtent(s'.tags, e) ensures Owned(s', e) {
        assert e in Extents(s'.tags);
        if e in Extents(s.tags) { assert Owned(s, e); }
      }
      forall e | e in s'.kept ensures IsExtent(s'.tags, e) && s'.mother != Some(e.start) && !Registered(s', e.start) {
        assert e in Extents(s'.tags);
        assert s.tags[e.start] == RunTag(e.len, 0);
      }
    }
  }

  /** A page inside an extent that kmalloc handed out is neither free nor the slab layer's. */
  lemma KeptPageApart(s: Slabs, e: Extent, p: nat)
    requires Inv(s) && e in s.kept && e.start <= p < e.start + e.len
    ensures s.tags[p] != FREE && s.mother != Some(p) && !Registered(s, p)
  {
    if s.tags[p] == SINGLE {
      SingleExtent(s.tags, p);
      OneOwner(s.tags, e, Extent(p, 1), p);
    }
  }

  lemma StoreInv(s: Slabs, e: Extent, p: nat, offset: nat, b: byte)
    requires Inv(s) && e in s.kept && e.start <= p < e.start + e.len
    ensures Inv(Store(s, p, offset, b))
    ensures Occupied(s) ==> Occupied(Store(s, p, offset, b))
  {
    KeptPageApart(s, e, p);
    var s' := Store(s, p, offset, b);
    assert s'.slots == s.slots;
    forall d | IsExtent(s'.tags, d) ensures Owned(s', d) {
      assert Owned(s, d);
    }
  }

  lemma RegisterInv(s: Slabs, i: nat)
    requires Inv(s) && s.mother.Some? && i < MAX_4KB_HEAP && s.slots[i].None? && Place(s.tags, 1).1.Some?
    ensures var (t, at) := Place(s.tags, 1); var s' := Register(s, i, t, at.value);
      && Inv(s')
      && s'.heads == s.heads
      && s.heads[at.value] == AllFree(H.TABLE_SIZE)
      && !Registered(s, at.value)
  {
    TakePages(s, 1);
    var (t, at) := Place(s.tags, 1);
    var p := at.value;
    var s' := Register(s, i, t, p);
    assert Put(s.heads[p], 0, FREE) == s.heads[p];
    assert s'.heads == s.heads;
    AllFreeWellFormed(H.TABLE_SIZE);
    forall q: nat ensures Registered(s', q) <==> q == p || Registered(s, q) {
      assert s'.slots[i] == Some(p);
      if k: nat :| k < |s.slots| && s.slots[k] == Some(q) { assert s'.slots[k] == Some(q); }
    }
    forall e | IsExtent(s'.tags, e) ensures Owned(s', e) {
      assert e in Extents(s'.tags);
      if e in Extents(s.tags) { assert Owned(s, e); }
    }
    forall e | e in s'.kept ensures IsExtent(s'.tags, e) && s'.mother != Some(e.start) && !Registered(s', e.start) {
      assert e in Extents(s'.tags);
      assert s.tags[e.start] == RunTag(e.len, 0);
    }
  }

  /** Changing the table of one registered page to another well-formed one. */
  lemma RetableInv(s: Slabs, p: nat, t: Table)
    requires Inv(s) && Registered(s, p) && p < PAGES && WellFormed(t) && |t| == H.TABLE_SIZE
    ensures Inv(s.(heads := s.heads[p := t]))
  {
    var s' := s.(heads := s.heads[p := t]);
    assert s'.slots == s.slots;
    assert forall q :: Registered(s', q) <==> Registered(s, q);
    forall e | IsExtent(s'.tags, e) ensures Owned(s', e) {
      assert Owned(s, e);
    }
  }

  /** Dropping a registered page whose table is empty. */
  lemma RetireInv(s: Slabs, i: nat)
    requires Inv(s) && i < MAX_4KB_HEAP && s.slots[i].Some? && s.heads[s.slots[i].value] == AllFree(H.TABLE_SIZE)
    ensures Inv(Retire(s, i))
    ensures Retire(s, i).tags == s.tags[s.slots[i].value := FREE]
  {
    var p := s.slots[i].value;
    var s' := Retire(s, i);
    SingleExtent(s.tags, p);
    ReleaseMeaning(s.tags, p);
    assert Extent(p, 1) in Extents(s.tags);
    assert s'.tags == s.tags[p := FREE];
    forall q: nat ensures Registered(s', q) <==> q != p && Registered(s, q) {
      if k: nat :| k < |s.slots| && s.slots[k] == Some(q) && q != p { assert s'.slots[k] == Some(q); }
    }
    forall e | IsExtent(s'.tags, e) ensures Owned(s', e) {
      assert e in Extents(s'.tags);
      assert Owned(s, e);
    }
    forall e | e in s'.kept ensures IsExtent(s'.tags, e) && s'.mother != Some(e.start) && !Registered(s', e.start) {
      assert e != Extent(p, 1) && e in Extents(s'.tags);
    }
  }

  // ----- What the steps do to the live blocks

  lemma RegisterLive(s: Slabs, i: nat, t: Table, p: nat)
    requires Shape(s) && i < MAX_4KB_HEAP && p < PAGES && s.slots[i].None? && s.heads[p] == AllFree(H.TABLE_SIZE)
    requires |t| == PAGES
    ensures LiveBlocks(Register(s, i, t, p)) == LiveBlocks(s)
  {
    var s' := Register(s, i, t, p);
    assert Put(s.heads[p], 0, FREE) == s.heads[p];
    assert s'.heads == s.heads;
    AllFreeWellFormed(H.TABLE_SIZE);
    AllFreeHasNoExtent(s.heads[p]);
    assert Extents(s.heads[p]) == {};
    forall q: nat ensures Registered(s', q) <==> q == p || Registered(s, q) {
      assert s'.slots[i] == Some(p);
      if k: nat :| k < |s.slots| && s.slots[k] == Some(q) { assert s'.slots[k] == Some(q); }
    }
  }

  lemma RetableLive(s: Slabs, p: nat, t: Table)
    requires Shape(s) && Registered(s, p) && p < PAGES && |t| == H.TABLE_SIZE
    ensures LiveBlocks(s.(heads := s.heads[p := t]))
         == (set b | b in LiveBlocks(s) && b.page != p) + (set e | e in Extents(t) :: Live(p, e))
  {
    var s' := s.(heads := s.heads[p := t]);
    assert forall q :: Registered(s', q) <==> Registered(s, q);
  }

  lemma RetireLive(s: Slabs, i: nat)
    requires Shape(s) && i < MAX_4KB_HEAP && s.slots[i].Some? && s.heads[s.slots[i].value] == AllFree(H.TABLE_SIZE)
    requires forall j :: 0 <= j < MAX_4KB_HEAP && j != i ==> s.slots[j] != s.slots[i]
    ensures LiveBlocks(Retire(s, i)) == LiveBlocks(s)
    ensures !Registered(Retire(s, i), s.slots[i].value)
  {
    var p := s.slots[i].value;
    var s' := Retire(s, i);
    AllFreeWellFormed(H.TABLE_SIZE);
    AllFreeHasNoExtent(s.heads[p]);
    assert Extents(s.heads[p]) == {};
    forall q: nat ensures Registered(s', q) <==> q != p && Registered(s, q) {
      if k: nat :| k < |s.slots| && s.slots[k] == Some(q) && q != p { assert s'.slots[k] == Some(q); }
    }
  }
}
