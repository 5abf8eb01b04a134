/** What the slab operations do to the set of live blocks, and the invariant that each of them keeps. */
module SlabTheorems {
  import opened Bytes
  import PageHeap
  import opened TagTable
  import opened KernelHeap
  import opened SlabMachine
  import H = Heap32

  // ----- heap_cream_malloc

  /** No page before the first zero slot has a run of n free blocks, and no further page can be added. */
  ghost predicate NoRoom(s: Slabs, n: nat)
    requires Shape(s)
  {
    var h := FirstHole(s.slots, 0);
    (forall i :: 0 <= i < h ==> !Fits(s, i, n)) && (h == MAX_4KB_HEAP || FreeCount(s.tags) == 0)
  }

  lemma FirstRoomIsHole(s: Slabs, n: nat)
    requires Shape(s)
    ensures var i, h := FirstRoom(s, n, 0), FirstHole(s.slots, 0);
      && i <= h
      && (i == h <==> forall k :: 0 <= k < h ==> !Fits(s, k, n))
      && (i < MAX_4KB_HEAP ==> (i == h <==> s.slots[i].None?))
  {
    var i, h := FirstRoom(s, n, 0), FirstHole(s.slots, 0);
    assert h < MAX_4KB_HEAP ==> s.slots[h].None?;
    assert i < h ==> s.slots[i].Some?;
  }

  lemma PlaceInPageInv(s: Slabs, p: nat, n: nat)
    requires Inv(s) && Registered(s, p) && p < PAGES
    ensures Inv(PlaceInPage(s, p, n).0)
  {
    PlaceMeaning(s.heads[p], n);
    var (t, at) := Place(s.heads[p], n);
    if at.Some? {
      RetableInv(s, p, t);
    }
  }

  /** The block r has joined the live blocks, as n units; or none has. */
  ghost predicate OneMore(s: Slabs, s': Slabs, r: Option<Block>, n: nat)
    requires Shape(s) && Shape(s')
  {
    match r
    case None => LiveBlocks(s') == LiveBlocks(s)
    case Some(b) =>
      var added := Live(b.page, Extent(b.index, n));
      added !in LiveBlocks(s) && LiveBlocks(s') == LiveBlocks(s) + {added}
  }

  lemma PlaceInPageLive(s: Slabs, p: nat, n: nat)
    requires Shape(s) && Registered(s, p) && p < PAGES && WellFormed(s.heads[p])
    ensures var (s', r) := PlaceInPage(s, p, n);
      match r
      case None => s' == s
      case Some(b) =>
        && b.page == p && b.index + n <= H.TABLE_SIZE
        && Live(p, Extent(b.index, n)) !in LiveBlocks(s)
        && LiveBlocks(s') == LiveBlocks(s) + {Live(p, Extent(b.index, n))}
        && s'.heads == s.heads[p := s'.heads[p]] && s'.heads[p] != AllFree(H.TABLE_SIZE)
  {
    PlaceMeaning(s.heads[p], n);
    var (t, at) := Place(s.heads[p], n);
    if at.Some? {
      RetableLive(s, p, t);
      MarkRunExtents(s.heads[p], at.value, n);
      AllFreeHasNoExtent(t);
      assert LiveBlocks(s.(heads := s.heads[p := t])) == LiveBlocks(s) + {Live(p, Extent(at.value, n))};
    }
  }

  lemma FreshPageFits(n: nat)
    ensures FirstFit(AllFree(H.TABLE_SIZE), n).Some? <==> 1 <= n <= H.TABLE_SIZE
  {
    if 1 <= n <= H.TABLE_SIZE {
      assert FreeRun(AllFree(H.TABLE_SIZE), 0, n);
    }
  }

  /** The state in which slot i has just been given a page, before anything is placed in it. */
  ghost function WithNewPage(s: Slabs, i: nat): Slabs
    requires Shape(s) && i < MAX_4KB_HEAP && Place(s.tags, 1).1.Some?
  {
    var (t, at) := Place(s.tags, 1);
    Register(s, i, t, at.value)
  }

  lemma NewPageInv(s: Slabs, i: nat, n: nat)
    requires Inv(s) && s.mother.Some? && i < MAX_4KB_HEAP && s.slots[i].None? && Place(s.tags, 1).1.Some?
    ensures Inv(PlaceInPage(WithNewPage(s, i), Place(s.tags, 1).1.value, n).0)
  {
    var p := Place(s.tags, 1).1.value;
    RegisterInv(s, i);
    var s1 := WithNewPage(s, i);
    assert s1.slots[i] == Some(p);
    PlaceInPageInv(s1, p, n);
  }

  /**
   A page fresh from the page allocator, though only its first byte was cleared, takes any request of 1..124 blocks.
   */
  lemma NewPageLive(s: Slabs, i: nat, n: nat)
    requires Inv(s) && i < MAX_4KB_HEAP && s.slots[i].None? && Place(s.tags, 1).1.Some?
    ensures var p := Place(s.tags, 1).1.value; var (s', r) := PlaceInPage(WithNewPage(s, i), p, n);
      && (r.Some? <==> 1 <= n <= H.TABLE_SIZE)
      && s'.heads == s.heads[p := s'.heads[p]] && !Registered(s, p)
      && (s'.heads[p] == AllFree(H.TABLE_SIZE) <==> r.None?)
      && OneMore(s, s', r, n)
  {
    TakePages(s, 1);
    var (t, at) := Place(s.tags, 1);
    var p := at.value;
    assert Put(s.heads[p], 0, FREE) == s.heads[p];
    RegisterLive(s, i, t, p);
    var s1 := WithNewPage(s, i);
    assert s1.heads == s.heads;
    assert s1.slots[i] == Some(p);
    AllFreeWellFormed(H.TABLE_SIZE);
    PlaceInPageLive(s1, p, n);
    FreshPageFits(n);
  }

  lemma MallocInv(s: Slabs, size: uint32)
    requires Inv(s) && (s.mother.Some? || size > H.TOTAL_BYTES_AVAIL)
    ensures Inv(Malloc(s, size).0)
    ensures Malloc(s, size).0.mother == s.mother && Malloc(s, size).0.kept == s.kept
  {
    if size <= H.TOTAL_BYTES_AVAIL {
      var n := H.Blocks(size);
      var i := FirstRoom(s, n, 0);
      if i < MAX_4KB_HEAP {
        if s.slots[i].Some? {
          PlaceInPageInv(s, s.slots[i].value, n);
        } else if Place(s.tags, 1).1.Some? {
          NewPageInv(s, i, n);
        }
      }
    }
  }

  /** A request fails exactly when it asks for nothing, for more than 3968 bytes, or finds no room. */
  lemma MallocFails(s: Slabs, size: uint32)
    requires Inv(s) && s.mother.Some?
    ensures Malloc(s, size).1.None? <==> size == 0 || size > 3968 || NoRoom(s, H.Blocks(size))
    ensures Malloc(s, size).1.None? && 0 < size ==> Malloc(s, size).0 == s
  {
    var n := H.Blocks(size);
    if 0 < size <= H.TOTAL_BYTES_AVAIL { H.BlocksMeaning(size); }
    FirstRoomIsHole(s, n);
    SingleFits(s.tags);
    var i := FirstRoom(s, n, 0);
    if i < MAX_4KB_HEAP {
      if s.slots[i].Some? {
        PlaceInPageLive(s, s.slots[i].value, n);
      } else if Place(s.tags, 1).1.Some? {
        NewPageLive(s, i, n);
      }
    }
  }

  /** A request that succeeds adds exactly one live block, of the blocks asked for; one that fails adds none. */
  lemma MallocMeaning(s: Slabs, size: uint32)
    requires Inv(s) && s.mother.Some?
    ensures var (s', r) := Malloc(s, size); OneMore(s, s', r, H.Blocks(size))
  {
    var n := H.Blocks(size);
    var i := FirstRoom(s, n, 0);
    if size <= H.TOTAL_BYTES_AVAIL && i < MAX_4KB_HEAP {
      if s.slots[i].Some? {
        MallocInOld(s, i, n);
      } else if Place(s.tags, 1).1.Some? {
        NewPageLive(s, i, n);
      }
    }
  }

  lemma MallocInOld(s: Slabs, i: nat, n: nat)
    requires Inv(s) && i < MAX_4KB_HEAP && s.slots[i].Some?
    ensures var (s', r) := PlaceInPage(s, s.slots[i].value, n); Shape(s') && OneMore(s, s', r, n)
  {
    PlaceInPageLive(s, s.slots[i].value, n);
  }

  /** Requests above 3968 bytes are refused, whatever the state, and change nothing. */
  lemma MallocRefuses(s: Slabs, size: uint32)
    requires Shape(s) && size > 3968
    ensures Malloc(s, size) == (s, None)
  {
  }

  /** The block is new, its base is the address returned, and it is as small as a block of that many bytes can be. */
  lemma MallocBlock(s: Slabs, size: uint32) returns (b: Live)
    requires Inv(s) && s.mother.Some? && Malloc(s, size).1.Some?
    ensures var (s', r) := Malloc(s, size);
      && Address(r.value) == BaseOf(b)
      && b !in LiveBlocks(s) && LiveBlocks(s') == LiveBlocks(s) + {b}
    ensures 0 < size <= 3968 && size <= 32 * b.e.len < size + 32
  {
    MallocFails(s, size);
    H.BlocksMeaning(size);
    MallocMeaning(s, size);
    var r := Malloc(s, size).1.value;
    b := Live(r.page, Extent(r.index, H.Blocks(size)));
  }

  /**
   In plain numbers: a block starts behind the 128 bytes of its page's header, at a multiple of 32, and ends in the
   page.
   */
  lemma BlockInPage(s: Slabs, b: Live)
    requires Shape(s) && b in LiveBlocks(s)
    ensures 0x100_0000 <= BaseOf(b) && BaseOf(b) + 32 * b.e.len <= 0x740_0000
    ensures BaseOf(b) % 32 == 0 && 128 <= BaseOf(b) % 4096 && BaseOf(b) % 4096 + 32 * b.e.len <= 4096
  {
    PageStart(b.page, 128 + 32 * b.e.start);
  }

  /** The header and the 124 blocks of 32 bytes fill the page exactly, one behind the other. */
  lemma PageTiled(p: nat, i: nat)
    requires p < PAGES && i < 124
    ensures H.TABLE_SIZE == MAX_4KB_HEAP == 124
    ensures Address(Block(p, 0)) == PageAddress(p) + 128
    ensures Address(Block(p, i)) + 32 == if i == 123 then PageAddress(p + 1) else Address(Block(p, i + 1))
  {
  }

  lemma PageStart(p: nat, offset: nat)
    requires p < PAGES && offset < 4096 && offset % 32 == 0
    ensures (PageAddress(p) + offset) % 4096 == offset && (PageAddress(p) + offset) % 32 == 0
  {
    assert PageAddress(p) == 4096 * (4096 + p);
    InPageOffset(4096 + p, offset);
    InBlockOffset(128 * (4096 + p), offset / 32);
  }

  lemma InPageOffset(q: nat, r: nat)
    requires r < 4096
    ensures (4096 * q + r) % 4096 == r
  {
  }

  lemma InBlockOffset(q: nat, r: nat)
    ensures (32 * q + 32 * r) % 32 == 0
  {
    assert 32 * q + 32 * r == 32 * (q + r);
  }

  /** The run of n free tags at `at` is the first in the table. */
  ghost predicate FirstRun(t: Table, at: nat, n: nat) {
    FreeRun(t, at, n) && forall a :: 0 <= a < at ==> !FreeRun(t, a, n)
  }

  /**
   Where the block goes: to the first slot whose page has room, all slots before it being in use and full, and there to
   the lowest run; a page that is added is the lowest free one.
   */
  lemma MallocFirstFit(s: Slabs, size: uint32) returns (i: nat)
    requires Inv(s) && s.mother.Some? && Malloc(s, size).1.Some?
    ensures i < MAX_4KB_HEAP && var (s', r) := Malloc(s, size);
      && s'.slots == s.slots[i := Some(r.value.page)] && r.value.page < PAGES
      && (s.slots[i].Some? ==> s'.slots == s.slots && s'.tags == s.tags)
      && (s.slots[i].None? ==> FirstRun(s.tags, r.value.page, 1) && s'.tags == s.tags[r.value.page := SINGLE])
      && FirstRun(s.heads[r.value.page], r.value.index, H.Blocks(size))
    ensures forall k :: 0 <= k < i ==>
              s.slots[k].Some? && forall a: nat :: !FreeRun(s.heads[s.slots[k].value], a, H.Blocks(size))
  {
    var n := H.Blocks(size);
    i := FirstRoom(s, n, 0);
    MallocFails(s, size);
    H.BlocksMeaning(size);
    if s.slots[i].None? {
      TakePages(s, 1);
      PlaceSingle(s.tags);
      assert FreeRun(s.tags, Place(s.tags, 1).1.value, 1);
      var p := Place(s.tags, 1).1.value;
      assert Put(s.heads[p], 0, FREE) == s.heads[p];
    }
  }

  /** kmalloc keeps the lowest run of free pages that fits, or changes nothing; slab blocks are not concerned. */
  lemma KmallocMeaning(s: Slabs, size: uint32)
    requires Inv(s)
    ensures var n, s' := PageHeap.BlockCount(size), Kmalloc(s, size);
      && s'.slots == s.slots && s'.mother == s.mother && s'.heads == s.heads
      && (s' == s <==> n == 0 || forall p: nat :: !FreeRun(s.tags, p, n))
      && (s' != s ==> exists p: nat ::
            && FirstRun(s.tags, p, n) && Extent(p, n) !in s.kept
            && s'.kept == s.kept + {Extent(p, n)} && Extents(s'.tags) == Extents(s.tags) + {Extent(p, n)})
  {
    var n := PageHeap.BlockCount(size);
    PlaceMeaning(s.tags, n);
    var at := Place(s.tags, n).1;
    if at.Some? {
      assert FirstRun(s.tags, at.value, n);
    }
  }

  lemma OneTableChanged(s: Slabs, s': Slabs, p: nat)
    requires Shape(s) && Shape(s') && p < PAGES && s'.heads == s.heads[p := s'.heads[p]] && Occupied(s)
    requires forall i :: 0 <= i < MAX_4KB_HEAP ==> s'.slots[i] == s.slots[i] || s'.slots[i] == Some(p)
    requires exists i :: 0 <= i < MAX_4KB_HEAP && s'.slots[i] == Some(p)
    ensures Occupied(s') <==> s'.heads[p] != AllFree(H.TABLE_SIZE)
  {
  }

  lemma OccupiedAfterPlace(s: Slabs, i: nat, n: nat)
    requires Inv(s) && i < MAX_4KB_HEAP && s.slots[i].Some? && Occupied(s)
    ensures Occupied(PlaceInPage(s, s.slots[i].value, n).0)
  {
    PlaceInPageLive(s, s.slots[i].value, n);
  }

  lemma OccupiedAfterNewPage(s: Slabs, i: nat, n: nat)
    requires Inv(s) && i < MAX_4KB_HEAP && s.slots[i].None? && Place(s.tags, 1).1.Some? && Occupied(s)
    ensures Occupied(PlaceInPage(WithNewPage(s, i), Place(s.tags, 1).1.value, n).0) <==> 1 <= n <= H.TABLE_SIZE
  {
    var p := Place(s.tags, 1).1.value;
    var s' := PlaceInPage(WithNewPage(s, i), p, n).0;
    NewPageLive(s, i, n);
    assert s'.slots[i] == Some(p);
    OneTableChanged(s, s', p);
  }

  /**
   Every registered page keeps holding a live block, unless a request of 0 bytes obtains a new page: exactly then an
   empty page is registered.
   */
  lemma MallocOccupied(s: Slabs, size: uint32)
    requires Inv(s) && s.mother.Some? && Occupied(s)
    ensures Occupied(Malloc(s, size).0)
       <==> 0 < size || FirstHole(s.slots, 0) == MAX_4KB_HEAP || FreeCount(s.tags) == 0
  {
    var n := H.Blocks(size);
    if size > H.TOTAL_BYTES_AVAIL {
      return;
    }
    if 0 < size { H.BlocksMeaning(size); }
    FirstRoomIsHole(s, n);
    SingleFits(s.tags);
    var i := FirstRoom(s, n, 0);
    if i < MAX_4KB_HEAP {
      if s.slots[i].Some? {
        OccupiedAfterPlace(s, i, n);
      } else if Place(s.tags, 1).1.Some? {
        OccupiedAfterNewPage(s, i, n);
      }
    }
  }

  // ----- heap_cream_free

  /** The page is registered before the first zero slot; a page behind it is hidden from both scans. */
  ghost predicate Visible(s: Slabs, p: nat) {
    exists i :: 0 <= i < FirstHole(s.slots, 0) && s.slots[i] == Some(p)
  }

  ghost function BaseOf(b: Live): nat {
    Address(Block(b.page, b.e.start))
  }

  /** `addr` is the base of live block b, and b's page is visible. */
  ghost predicate FreeableAt(s: Slabs, b: Live, addr: nat)
    requires Shape(s)
  {
    b in LiveBlocks(s) && Visible(s, b.page) && addr == BaseOf(b)
  }

  lemma HitsMeaning(s: Slabs, p: nat, addr: nat)
    requires Shape(s) && p < PAGES && WellFormed(s.heads[p])
    ensures Hits(s, p, addr) <==> exists e :: IsExtent(s.heads[p], e) && addr == Address(Block(p, e.start))
  {
    var t := s.heads[p];
    if Hits(s, p, addr) {
      var k := (addr - PageAddress(p) - H.DATA_OFFSET_BYTES) / H.SIZE_OF_BLOCK_BYTE;
      ReleaseMeaning(t, k);
      var n :| Extent(k, n) in Extents(t);
      assert IsExtent(t, Extent(k, n)) && addr == Address(Block(p, Extent(k, n).start));
    }
    if e :| IsExtent(t, e) && addr == Address(Block(p, e.start)) {
      ReleaseMeaning(t, e.start);
      assert Extent(e.start, e.len) in Extents(t);
      assert (addr - PageAddress(p) - H.DATA_OFFSET_BYTES) / H.SIZE_OF_BLOCK_BYTE == e.start;
    }
  }

  /** The page of a live block is determined by the block's address. */
  lemma AddressInjective(a: Block, b: Block)
    requires a.index < H.TABLE_SIZE && b.index < H.TABLE_SIZE && Address(a) == Address(b)
    ensures a == b
  {
    assert a.page == b.page;
  }

  /** The scan stops at the slot of the page that holds the block, if it gets there. */
  lemma FirstHitFinds(s: Slabs, b: Live, addr: nat) returns (i: nat)
    requires Inv(s) && FreeableAt(s, b, addr)
    ensures i == FirstHit(s, addr, 0) && i < MAX_4KB_HEAP && s.slots[i] == Some(b.page)
  {
    var k :| 0 <= k < FirstHole(s.slots, 0) && s.slots[k] == Some(b.page);
    HitsMeaning(s, b.page, addr);
    i := FirstHit(s, addr, 0);
    assert i <= k;
    assert s.slots[i].Some?;
    HitsMeaning(s, s.slots[i].value, addr);
    var e :| IsExtent(s.heads[s.slots[i].value], e) && addr == Address(Block(s.slots[i].value, e.start));
    AddressInjective(Block(s.slots[i].value, e.start), Block(b.page, b.e.start));
  }

  ghost predicate LastInPage(s: Slabs, b: Live)
    requires Shape(s)
  {
    forall c :: c in LiveBlocks(s) && c.page == b.page ==> c == b
  }

  lemma RetableRemoves(s: Slabs, b: Live, t: Table)
    requires Shape(s) && b in LiveBlocks(s) && |t| == H.TABLE_SIZE
    requires Extents(t) == Extents(s.heads[b.page]) - {b.e}
    ensures LiveBlocks(s.(heads := s.heads[b.page := t])) == LiveBlocks(s) - {b}
    ensures Extents(t) == {} <==> LastInPage(s, b)
  {
    RetableLive(s, b.page, t);
    if e :| e in Extents(t) {
      assert Live(b.page, e) in LiveBlocks(s) && Live(b.page, e) != b;
    } else {
      forall c | c in LiveBlocks(s) && c.page == b.page ensures c == b {
        assert c.e in Extents(t) + {b.e};
      }
    }
  }

  lemma ClearBlockIs(s: Slabs, b: Live)
    requires Shape(s) && b in LiveBlocks(s) && Hits(s, b.page, BaseOf(b))
    ensures ClearBlock(s, b.page, BaseOf(b)) == s.(heads := s.heads[b.page := Release(s.heads[b.page], b.e.start).0])
  {
    assert (BaseOf(b) - PageAddress(b.page) - H.DATA_OFFSET_BYTES) / H.SIZE_OF_BLOCK_BYTE == b.e.start;
  }

  lemma ReleaseExtent(t: Table, e: Extent)
    requires WellFormed(t) && e in Extents(t)
    ensures var t' := Release(t, e.start).0; WellFormed(t') && |t'| == |t| && Extents(t') == Extents(t) - {e}
  {
    ReleaseMeaning(t, e.start);
    assert Extent(e.start, e.len) == e;
  }

  /** Clearing the tags of live block b in its page removes b, and empties the table iff b was the only block there. */
  lemma ClearBlockLive(s: Slabs, b: Live)
    requires Shape(s) && b in LiveBlocks(s) && WellFormed(s.heads[b.page]) && Hits(s, b.page, BaseOf(b))
    ensures var s1 := ClearBlock(s, b.page, BaseOf(b));
      && WellFormed(s1.heads[b.page])
      && LiveBlocks(s1) == LiveBlocks(s) - {b}
      && (s1.heads[b.page] == AllFree(H.TABLE_SIZE) <==> LastInPage(s, b))
  {
    var t := s.heads[b.page];
    ClearBlockIs(s, b);
    ReleaseExtent(t, b.e);
    var t' := Release(t, b.e.start).0;
    RetableRemoves(s, b, t');
    AllFreeHasNoExtent(t');
  }

  lemma FreeInSlotInv(s: Slabs, i: nat, b: Live)
    requires Inv(s) && i < MAX_4KB_HEAP && s.slots[i] == Some(b.page) && b in LiveBlocks(s)
    requires Hits(s, b.page, BaseOf(b))
    ensures Inv(FreeInSlot(s, i, BaseOf(b)))
  {
    ClearBlockLive(s, b);
    var s1 := ClearBlock(s, b.page, BaseOf(b));
    RetableInv(s, b.page, s1.heads[b.page]);
    if s1.heads[b.page] == AllFree(H.TABLE_SIZE) {
      RetireInv(s1, i);
    }
  }

  lemma FreeInSlotLive(s: Slabs, i: nat, b: Live)
    requires Shape(s) && i < MAX_4KB_HEAP && s.slots[i] == Some(b.page) && b in LiveBlocks(s)
    requires WellFormed(s.heads[b.page])
    requires forall j :: 0 <= j < MAX_4KB_HEAP && j != i ==> s.slots[j] != s.slots[i]
    requires Hits(s, b.page, BaseOf(b))
    ensures LiveBlocks(FreeInSlot(s, i, BaseOf(b))) == LiveBlocks(s) - {b}
    ensures LastInPage(s, b) ==> !Registered(FreeInSlot(s, i, BaseOf(b)), b.page)
  {
    ClearBlockLive(s, b);
    var s1 := ClearBlock(s, b.page, BaseOf(b));
    if s1.heads[b.page] == AllFree(H.TABLE_SIZE) {
      RetireLive(s1, i);
    }
  }

  /** The page goes back to the page allocator, and its slot becomes zero, exactly if b was the page's only block. */
  lemma FreeInSlotPages(s: Slabs, i: nat, b: Live)
    requires Shape(s) && i < MAX_4KB_HEAP && s.slots[i] == Some(b.page) && b in LiveBlocks(s)
    requires WellFormed(s.heads[b.page])
    requires s.tags[b.page] == SINGLE && Hits(s, b.page, BaseOf(b))
    ensures var s' := FreeInSlot(s, i, BaseOf(b));
      && s'.heads == s.heads[b.page := s'.heads[b.page]]
      && (if LastInPage(s, b)
          then s'.tags == s.tags[b.page := FREE] && s'.slots == s.slots[i := None]
          else s'.tags == s.tags && s'.slots == s.slots && s'.heads[b.page] != AllFree(H.TABLE_SIZE))
  {
    ClearBlockLive(s, b);
    ReleaseSingle(s.tags, b.page);
  }

  lemma ReleaseSingle(t: Table, p: nat)
    requires p < |t| && t[p] == SINGLE
    ensures Release(t, p).0 == t[p := FREE]
  {
  }

  /** The slot, page and extent that a successful free is about. */
  lemma FreeHit(s: Slabs, addr: nat) returns (b: Live)
    requires Inv(s) && Free(s, addr).1
    ensures FreeableAt(s, b, addr)
    ensures s.slots[FirstHit(s, addr, 0)] == Some(b.page) && Hits(s, b.page, addr)
  {
    var i := FirstHit(s, addr, 0);
    var p := s.slots[i].value;
    HitsMeaning(s, p, addr);
    var e :| IsExtent(s.heads[p], e) && addr == Address(Block(p, e.start));
    b := Live(p, e);
    var h := FirstHole(s.slots, 0);
    assert h < MAX_4KB_HEAP ==> s.slots[h].None?;
  }

  lemma FreeInv(s: Slabs, addr: nat)
    requires Inv(s)
    ensures Inv(Free(s, addr).0)
    ensures Free(s, addr).0.mother == s.mother && Free(s, addr).0.kept == s.kept
  {
    if Free(s, addr).1 {
      var b := FreeHit(s, addr);
      FreeInSlotInv(s, FirstHit(s, addr, 0), b);
    }
  }

  lemma FreeOccupied(s: Slabs, addr: nat)
    requires Inv(s) && Occupied(s)
    ensures Occupied(Free(s, addr).0)
  {
    var (s', ok) := Free(s, addr);
    if ok {
      var b := FreeHit(s, addr);
      var i := FirstHit(s, addr, 0);
      FreeInSlotPages(s, i, b);
      forall k | 0 <= k < MAX_4KB_HEAP && s'.slots[k].Some?
        ensures s'.heads[s'.slots[k].value] != AllFree(H.TABLE_SIZE)
      {
        assert s'.slots[k] == s.slots[k];
      }
    }
  }

  /** heap_cream_free succeeds exactly on the bases of live blocks in visible pages; otherwise nothing changes. */
  lemma FreeSucceeds(s: Slabs, addr: nat)
    requires Inv(s)
    ensures Free(s, addr).1 <==> exists b :: FreeableAt(s, b, addr)
    ensures !Free(s, addr).1 ==> Free(s, addr).0 == s
  {
    if Free(s, addr).1 {
      var b := FreeHit(s, addr);
    }
    if b :| FreeableAt(s, b, addr) {
      var i := FirstHitFinds(s, b, addr);
    }
  }

  /** It then removes exactly that block, and gives the page back exactly when the block was the last one in it. */
  lemma FreeMeaning(s: Slabs, b: Live, addr: nat)
    requires Inv(s) && FreeableAt(s, b, addr)
    ensures var s' := Free(s, addr).0;
      && LiveBlocks(s') == LiveBlocks(s) - {b}
      && (if LastInPage(s, b)
          then s'.tags == s.tags[b.page := FREE] && !Registered(s', b.page)
          else s'.tags == s.tags && s'.slots == s.slots)
  {
    var i := FirstHitFinds(s, b, addr);
    HitsMeaning(s, b.page, addr);
    FreeInSlotPages(s, i, b);
    FreeInSlotLive(s, i, b);
  }

  /** The block just allocated can be freed, and that brings back the live blocks there were. */
  lemma MallocThenFree(s: Slabs, size: uint32)
    requires Inv(s) && s.mother.Some? && Malloc(s, size).1.Some?
    ensures var (s1, r) := Malloc(s, size); var (s2, ok) := Free(s1, Address(r.value));
      ok && LiveBlocks(s2) == LiveBlocks(s)
  {
    MallocMeaning(s, size);
    MallocInv(s, size);
    var n := H.Blocks(size);
    var (s1, r) := Malloc(s, size);
    var b := Live(r.value.page, Extent(r.value.index, n));
    VisibleAfterMalloc(s, size);
    FreeSucceeds(s1, Address(r.value));
    assert FreeableAt(s1, b, Address(r.value));
    FreeMeaning(s1, b, Address(r.value));
  }

  lemma VisibleAfterMalloc(s: Slabs, size: uint32)
    requires Shape(s) && Malloc(s, size).1.Some?
    ensures Visible(Malloc(s, size).0, Malloc(s, size).1.value.page)
  {
    var n := H.Blocks(size);
    var (s1, r) := Malloc(s, size);
    FirstRoomIsHole(s, n);
    var i := FirstRoom(s, n, 0);
    assert s1.slots[i] == Some(r.value.page);
    var h := FirstHole(s1.slots, 0);
    assert h < MAX_4KB_HEAP ==> s1.slots[h].None?;
    assert forall k :: 0 <= k < i ==> s1.slots[k] == s.slots[k];
  }
}
