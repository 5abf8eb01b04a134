/** Safety of every run of the three allocators from boot. */
module SlabRuns {
  import opened Bytes
  import opened TagTable
  import opened KernelHeap
  import opened SlabMachine
  import opened SlabTheorems
  import H = Heap32

  // ----- Live memory never overlaps

  /** Everything that memory of the kernel heap is in use for. */
  datatype Region = KeptPages(e: Extent) | MotherPage | Header(page: nat) | Data(b: Live)

  ghost predicate InUse(s: Slabs, r: Region)
    requires Shape(s)
  {
    match r
    case KeptPages(e) => e in s.kept
    case MotherPage => s.mother.Some?
    case Header(p) => Registered(s, p) && p < PAGES
    case Data(b) => b in LiveBlocks(s)
  }

  ghost function PagesOf(s: Slabs, r: Region): Extent
    requires Shape(s) && InUse(s, r)
  {
    match r
    case KeptPages(e) => e
    case MotherPage => Extent(s.mother.value, 1)
    case Header(p) => Extent(p, 1)
    case Data(b) => Extent(b.page, 1)
  }

  /** First address of a region. */
  ghost function Lo(s: Slabs, r: Region): int
    requires Shape(s) && InUse(s, r)
  {
    match r
    case Data(b) => BaseOf(b)
    case _ => PageAddress(PagesOf(s, r).start)
  }

  /** One past the last address of a region. */
  ghost function Hi(s: Slabs, r: Region): int
    requires Shape(s) && InUse(s, r)
  {
    match r
    case Data(b) => BaseOf(b) + b.e.len * H.SIZE_OF_BLOCK_BYTE
    case Header(p) => PageAddress(p) + H.DATA_OFFSET_BYTES
    case _ => PageAddress(PagesOf(s, r).start + PagesOf(s, r).len)
  }

  lemma PagesOfIsExtent(s: Slabs, r: Region)
    requires Inv(s) && InUse(s, r)
    ensures IsExtent(s.tags, PagesOf(s, r))
    ensures var e := PagesOf(s, r); PageAddress(e.start) <= Lo(s, r) < Hi(s, r) <= PageAddress(e.start + e.len)
  {
    if !r.KeptPages? {
      SingleExtent(s.tags, PagesOf(s, r).start);
    }
  }

  /** Two different uses of the heap share no byte, and all lie inside the heap; hidden slab pages are included. */
  lemma RegionsDisjoint(s: Slabs, a: Region, b: Region)
    requires Inv(s) && InUse(s, a) && InUse(s, b) && a != b
    ensures KHEAP_START <= Lo(s, a) < Hi(s, a) <= KHEAP_END
    ensures Hi(s, a) <= Lo(s, b) || Hi(s, b) <= Lo(s, a)
  {
    PagesOfIsExtent(s, a);
    PagesOfIsExtent(s, b);
    if PagesOf(s, a) != PagesOf(s, b) {
      ExtentsDisjoint(s.tags, PagesOf(s, a), PagesOf(s, b));
    } else if a.Data? && b.Data? {
      ExtentsDisjoint(s.heads[a.b.page], a.b.e, b.b.e);
    }
  }

  // ----- Accounting

  ghost function SlabPages(s: Slabs): set<nat>
    requires Shape(s)
  {
    set i | 0 <= i < MAX_4KB_HEAP && s.slots[i].Some? :: s.slots[i].value
  }

  ghost function PagesOfBlocks(bs: set<Live>): set<nat> {
    set b | b in bs :: b.page
  }

  lemma {:induction false} ImageNotLarger(bs: set<Live>)
    ensures |PagesOfBlocks(bs)| <= |bs|
    decreases |bs|
  {
    if b :| b in bs {
      ImageNotLarger(bs - {b});
      assert PagesOfBlocks(bs) == PagesOfBlocks(bs - {b}) + {b.page};
    } else {
      assert PagesOfBlocks(bs) == {};
    }
  }

  /** When every registered page holds a live block, pages never outnumber live blocks. */
  lemma PagesBoundedByBlocks(s: Slabs)
    requires Inv(s) && Occupied(s)
    ensures |SlabPages(s)| <= |LiveBlocks(s)|
  {
    forall p | p in SlabPages(s) ensures p in PagesOfBlocks(LiveBlocks(s)) {
      AllFreeHasNoExtent(s.heads[p]);
      var e :| e in Extents(s.heads[p]);
      assert Live(p, e) in LiveBlocks(s);
    }
    SubsetSize(SlabPages(s), PagesOfBlocks(LiveBlocks(s)));
    ImageNotLarger(LiveBlocks(s));
  }

  lemma {:induction false} SubsetSize(a: set<nat>, b: set<nat>)
    requires a <= b
    ensures |a| <= |b|
    decreases |a|
  {
    if x :| x in a {
      SubsetSize(a - {x}, b - {x});
    }
  }

  ghost function Singles(ps: set<nat>): set<Extent> {
    set p | p in ps :: Extent(p, 1)
  }

  lemma {:induction false} UnitsOfSingles(ps: set<nat>, es: set<Extent>)
    requires forall p :: p in ps ==> Extent(p, 1) !in es
    ensures Units(es + Singles(ps)) == Units(es) + |ps|
    decreases |ps|
  {
    if p :| p in ps {
      UnitsOfSingles(ps - {p}, es);
      UnitsRemove(es + Singles(ps), Extent(p, 1));
      assert es + Singles(ps) - {Extent(p, 1)} == es + Singles(ps - {p});
    } else {
      assert es + Singles(ps) == es;
    }
  }

  /** The slab layer's pages: registered ones, hidden ones included, and the page of the array itself. */
  ghost function OwnPages(s: Slabs): set<nat>
    requires Shape(s)
  {
    SlabPages(s) + (if s.mother.Some? then {s.mother.value} else {})
  }

  lemma ExtentOwner(s: Slabs, e: Extent)
    requires Inv(s)
    ensures e in Extents(s.tags) <==> e in s.kept + Singles(OwnPages(s))
  {
    if e in Extents(s.tags) && e !in s.kept {
      assert Owned(s, e) && s.tags[e.start] == SINGLE;
      SingleExtent(s.tags, e.start);
      assert e.start in OwnPages(s);
    }
    if e in Singles(OwnPages(s)) {
      SingleExtent(s.tags, e.start);
    }
  }

  /** Every page is free, kept by a kmalloc caller, a slab page, or the page of `mothermary`, and counted once. */
  lemma PageAccounting(s: Slabs)
    requires Inv(s)
    ensures FreeCount(s.tags) + Units(s.kept) + |SlabPages(s)| + (if s.mother.Some? then 1 else 0) == PAGES
  {
    Conservation(s.tags);
    var ps := OwnPages(s);
    forall e ensures e in Extents(s.tags) <==> e in s.kept + Singles(ps) { ExtentOwner(s, e); }
    assert Extents(s.tags) == s.kept + Singles(ps);
    forall p | p in ps ensures Extent(p, 1) !in s.kept {
      assert Registered(s, p) || s.mother == Some(p);
    }
    UnitsOfSingles(ps, s.kept);
  }

  // ----- Runs

  datatype Step =
    | DoKmalloc(size: uint32)
    | DoHelp
    | DoMalloc(size: uint32)
    | DoFree(addr: nat)
    | DoStore(page: nat, offset: nat, value: byte)

  /** `mothermary` is obtained once, before the first slab request; clients store only into pages they were given. */
  ghost predicate Enabled(s: Slabs, step: Step) {
    match step
    case DoKmalloc(_) => true
    case DoHelp => s.mother.None?
    case DoMalloc(_) => s.mother.Some?
    case DoFree(_) => s.mother.Some?
    case DoStore(p, _, _) => exists e :: e in s.kept && e.start <= p < e.start + e.len
  }

  ghost function Next(s: Slabs, step: Step): (s': Slabs)
    requires Inv(s) && Enabled(s, step)
    ensures Inv(s')
    ensures Occupied(s) && step != DoMalloc(0) ==> Occupied(s')
  {
    match step
    case DoKmalloc(size) =>
      KmallocInv(s, size);
      Kmalloc(s, size)
    case DoHelp =>
      HelpInv(s);
      Help(s)
    case DoMalloc(size) =>
      MallocInv(s, size);
      MallocKeepsOccupied(s, size);
      Malloc(s, size).0
    case DoFree(addr) =>
      FreeInv(s, addr);
      FreeKeepsOccupied(s, addr);
      Free(s, addr).0
    case DoStore(p, offset, value) =>
      StoreKeeps(s, p, offset, value);
      Store(s, p, offset, value)
  }

  lemma MallocKeepsOccupied(s: Slabs, size: uint32)
    requires Inv(s) && s.mother.Some?
    ensures Occupied(s) && size != 0 ==> Occupied(Malloc(s, size).0)
  {
    if Occupied(s) && size != 0 { MallocOccupied(s, size); }
  }

  lemma FreeKeepsOccupied(s: Slabs, addr: nat)
    requires Inv(s)
    ensures Occupied(s) ==> Occupied(Free(s, addr).0)
  {
    if Occupied(s) { FreeOccupied(s, addr); }
  }

  lemma StoreKeeps(s: Slabs, p: nat, offset: nat, b: byte)
    requires Inv(s) && Enabled(s, DoStore(p, offset, b))
    ensures p < PAGES && Inv(Store(s, p, offset, b))
    ensures Occupied(s) ==> Occupied(Store(s, p, offset, b))
  {
    var e :| e in s.kept && e.start <= p < e.start + e.len;
    StoreInv(s, e, p, offset, b);
  }

  /** The state after kheap_init, over memory whose heap region is all zero. */
  ghost function Booted(): (s: Slabs)
    ensures Inv(s) && Occupied(s)
  {
    BootInv();
    Boot()
  }

  /** s' is reached from s by the steps, each enabled when it is taken. */
  ghost predicate Reaches(s: Slabs, steps: seq<Step>, s': Slabs)
    requires Inv(s)
    decreases |steps|
  {
    if steps == [] then s' == s
    else Enabled(s, steps[0]) && Reaches(Next(s, steps[0]), steps[1..], s')
  }

  lemma {:induction false} ReachesInv(s: Slabs, steps: seq<Step>, s': Slabs)
    requires Inv(s) && Reaches(s, steps, s')
    ensures Inv(s')
    ensures Occupied(s) && DoMalloc(0) !in steps ==> Occupied(s')
    decreases |steps|
  {
    if steps != [] {
      ReachesInv(Next(s, steps[0]), steps[1..], s');
    }
  }

  /** After any run from boot, with requests of any size, each page has one owner, and each table is well formed. */
  lemma RunInv(steps: seq<Step>, s: Slabs)
    requires Reaches(Booted(), steps, s)
    ensures Inv(s)
  {
    ReachesInv(Booted(), steps, s);
  }

  /** After any run from boot the regions in use are pairwise disjoint and inside the heap. */
  lemma RunSafe(steps: seq<Step>, s: Slabs)
    requires Reaches(Booted(), steps, s)
    ensures Shape(s)
    ensures forall a, b :: InUse(s, a) && InUse(s, b) && a != b ==> Hi(s, a) <= Lo(s, b) || Hi(s, b) <= Lo(s, a)
    ensures forall a :: InUse(s, a) ==> KHEAP_START <= Lo(s, a) < Hi(s, a) <= KHEAP_END
  {
    RunInv(steps, s);
    forall a, b | InUse(s, a) && InUse(s, b) && a != b ensures Hi(s, a) <= Lo(s, b) || Hi(s, b) <= Lo(s, a) {
      RegionsDisjoint(s, a, b);
    }
    forall a | InUse(s, a) ensures KHEAP_START <= Lo(s, a) < Hi(s, a) <= KHEAP_END {
      PagesOfIsExtent(s, a);
    }
  }

  /** After any run from boot every page is accounted for once. */
  lemma RunAccounts(steps: seq<Step>, s: Slabs)
    requires Reaches(Booted(), steps, s)
    ensures Shape(s)
    ensures FreeCount(s.tags) + Units(s.kept) + |SlabPages(s)| + (if s.mother.Some? then 1 else 0) == PAGES
  {
    RunInv(steps, s);
    PageAccounting(s);
  }

  /**
   After any run from boot every free page has an all-zero table, although kzalloc clears only the byte it is asked
   for.
   */
  lemma RunClean(steps: seq<Step>, s: Slabs)
    requires Reaches(Booted(), steps, s)
    ensures Shape(s)
    ensures forall p :: 0 <= p < PAGES && s.tags[p] == FREE ==> s.heads[p] == AllFree(H.TABLE_SIZE)
  {
    RunInv(steps, s);
  }

  /** Without requests of 0 bytes, slab pages never outnumber live blocks. */
  lemma RunOccupied(steps: seq<Step>, s: Slabs)
    requires Reaches(Booted(), steps, s) && DoMalloc(0) !in steps
    ensures Inv(s) && Occupied(s)
    ensures |SlabPages(s)| <= |LiveBlocks(s)|
  {
    ReachesInv(Booted(), steps, s);
    PagesBoundedByBlocks(s);
  }

  // ----- Hidden pages

  /** A block in a page behind a zero slot cannot be freed. */
  lemma HiddenNotFreeable(s: Slabs, i: nat, c: Live, j: nat)
    requires Inv(s) && i < j < MAX_4KB_HEAP && s.slots[i].None? && s.slots[j] == Some(c.page) && c in LiveBlocks(s)
    ensures Free(s, BaseOf(c)) == (s, false)
  {
    FreeSucceeds(s, BaseOf(c));
    assert FirstHole(s.slots, 0) <= i;
    assert !Visible(s, c.page);
    if d :| FreeableAt(s, d, BaseOf(c)) {
      AddressInjective(Block(d.page, d.e.start), Block(c.page, c.e.start));
    }
  }

  /**
   A free that empties the page of slot i hides the pages of all later slots: their blocks stay live and safe, but
   heap_cream_free refuses them until the slot is filled again.
   */
  lemma FreeHidesLaterPages(s: Slabs, b: Live, i: nat, c: Live, j: nat)
    requires Inv(s) && FreeableAt(s, b, BaseOf(b)) && LastInPage(s, b)
    requires i < j < MAX_4KB_HEAP && s.slots[i] == Some(b.page) && s.slots[j] == Some(c.page) && c in LiveBlocks(s)
    ensures var s' := Free(s, BaseOf(b)).0;
      && c in LiveBlocks(s')
      && Free(s', BaseOf(c)) == (s', false)
  {
    var s' := Free(s, BaseOf(b)).0;
    assert c in LiveBlocks(s') && s'.slots == s.slots[i := None] by {
      FreeMeaning(s, b, BaseOf(b));
      var k := FirstHitFinds(s, b, BaseOf(b));
      FreeInSlotPages(s, k, b);
    }
    FreeInv(s, BaseOf(b));
    HiddenNotFreeable(s', i, c, j);
  }

  /**
   A request for a whole page, when no registered page is visible or all visible ones are full, takes the first hole.
   */
  lemma WholePageRequest(s: Slabs, h: nat) returns (b: Live)
    requires Inv(s) && s.mother.Some? && h < MAX_4KB_HEAP && 0 < FreeCount(s.tags)
    requires forall k :: 0 <= k < h ==> s.slots[k].Some? && s.heads[s.slots[k].value][0] != FREE
    requires s.slots[h].None?
    ensures var s' := Malloc(s, H.TOTAL_BYTES_AVAIL).0;
      && LiveBlocks(s') == LiveBlocks(s) + {b}
      && s'.slots == s.slots[h := Some(b.page)] && b.e == Extent(0, H.TABLE_SIZE)
      && s'.heads == s.heads[b.page := s'.heads[b.page]]
      && (forall k :: 0 <= k < h ==> s.slots[k].value != b.page)
      && FreeCount(s'.tags) == FreeCount(s.tags) - 1 && s'.heads[b.page][0] != FREE
  {
    var size := H.TOTAL_BYTES_AVAIL;
    assert H.Blocks(size) == H.TABLE_SIZE;
    forall k | 0 <= k < h ensures !Fits(s, k, H.TABLE_SIZE) {
      var t := s.heads[s.slots[k].value];
      forall a: nat ensures !FreeRun(t, a, H.TABLE_SIZE) {
        assert t[0] != FREE;
      }
    }
    assert FirstRoom(s, H.TABLE_SIZE, 0) == h;
    PlaceSingle(s.tags);
    NewPageLive(s, h, H.TABLE_SIZE);
    MallocMeaning(s, size);
    var r := Malloc(s, size).1;
    b := Live(r.value.page, Extent(r.value.index, H.TABLE_SIZE));
    assert b.e.start == 0 by { assert b in LiveBlocks(Malloc(s, size).0); }
    assert forall k :: 0 <= k < h ==> Registered(s, s.slots[k].value);
    FirstTagTaken(Malloc(s, size).0, b);
  }

  lemma FirstTagTaken(s: Slabs, b: Live)
    requires Shape(s) && b in LiveBlocks(s) && b.e.start == 0
    ensures s.heads[b.page][0] != FREE
  {
  }

  function NoPages(): (r: seq<Option<nat>>)
    ensures |r| == MAX_4KB_HEAP && forall i :: 0 <= i < MAX_4KB_HEAP ==> r[i].None?
  {
    seq(MAX_4KB_HEAP, _ => None)
  }

  /** Nothing has been allocated. */
  ghost predicate Bare(s: Slabs) {
    s.mother.None? && s.kept == {} && s.slots == NoPages() && FreeCount(s.tags) == PAGES
  }

  lemma BootedBare()
    ensures Bare(Booted())
  {
    FreeCountConstant(AllFree(PAGES), true);
    assert Booted().slots == NoPages();
  }

  lemma AfterHelp(s: Slabs)
    requires Inv(s) && Bare(s)
    ensures var s' := Next(s, DoHelp);
      s'.mother.Some? && s'.kept == {} && s'.slots == NoPages() && FreeCount(s'.tags) == PAGES - 1
    ensures LiveBlocks(Next(s, DoHelp)) == {}
  {
    PlaceSingle(s.tags);
    HelpInv(s);
  }

  lemma AfterFirstPage(s: Slabs) returns (b: Live)
    requires Inv(s) && s.mother.Some? && s.kept == {} && FreeCount(s.tags) == PAGES - 1
    requires s.slots == NoPages() && LiveBlocks(s) == {}
    ensures var s' := Next(s, DoMalloc(H.TOTAL_BYTES_AVAIL));
      && s'.mother.Some? && LiveBlocks(s') == {b} && s'.slots == s.slots[0 := Some(b.page)]
      && FreeCount(s'.tags) == PAGES - 2
      && s'.heads[b.page][0] != FREE
  {
    b := WholePageRequest(s, 0);
    MallocInv(s, H.TOTAL_BYTES_AVAIL);
  }

  lemma AfterSecondPage(s: Slabs, b: Live) returns (c: Live)
    requires Inv(s) && s.mother.Some? && LiveBlocks(s) == {b} && s.slots == NoPages()[0 := Some(b.page)]
    requires 0 < FreeCount(s.tags) && s.heads[b.page][0] != FREE
    ensures var s' := Next(s, DoMalloc(H.TOTAL_BYTES_AVAIL));
      && s'.mother.Some? && c in LiveBlocks(s') && s'.slots[0] == Some(b.page) && s'.slots[1] == Some(c.page)
      && FreeableAt(s', b, BaseOf(b)) && LastInPage(s', b)
  {
    c := WholePageRequest(s, 1);
    MallocInv(s, H.TOTAL_BYTES_AVAIL);
    var s' := Next(s, DoMalloc(H.TOTAL_BYTES_AVAIL));
    assert s'.slots[0].Some?;
    assert 0 < FirstHole(s'.slots, 0);
    assert b in LiveBlocks(s');
  }

  lemma AfterFree(s: Slabs, b: Live, c: Live) returns (s': Slabs)
    requires Inv(s) && s.mother.Some? && c in LiveBlocks(s) && s.slots[0] == Some(b.page) && s.slots[1] == Some(c.page)
    requires FreeableAt(s, b, BaseOf(b)) && LastInPage(s, b)
    ensures Reaches(s, [DoFree(BaseOf(b))], s')
    ensures Inv(s') && c in LiveBlocks(s') && Free(s', BaseOf(c)) == (s', false)
  {
    FreeHidesLaterPages(s, b, 0, c, 1);
    s' := Next(s, DoFree(BaseOf(b)));
    OneStep(s, DoFree(BaseOf(b)));
  }

  lemma FromOnePage(s: Slabs, b: Live) returns (steps: seq<Step>, s': Slabs, c: Live)
    requires Inv(s) && s.mother.Some? && LiveBlocks(s) == {b} && s.slots == NoPages()[0 := Some(b.page)]
    requires 0 < FreeCount(s.tags) && s.heads[b.page][0] != FREE
    ensures DoMalloc(0) !in steps && Reaches(s, steps, s')
    ensures Inv(s') && c in LiveBlocks(s') && Free(s', BaseOf(c)) == (s', false)
  {
    var take := DoMalloc(H.TOTAL_BYTES_AVAIL);
    c := AfterSecondPage(s, b);
    s' := AfterFree(Next(s, take), b, c);
    steps := [DoFree(BaseOf(b))];
    StepThen(s, take, steps, s');
    steps := [take] + steps;
  }

  lemma FromNoPage(s: Slabs) returns (steps: seq<Step>, s': Slabs, c: Live)
    requires Inv(s) && s.mother.Some? && s.kept == {} && FreeCount(s.tags) == PAGES - 1
    requires s.slots == NoPages() && LiveBlocks(s) == {}
    ensures DoMalloc(0) !in steps && Reaches(s, steps, s')
    ensures Inv(s') && c in LiveBlocks(s') && Free(s', BaseOf(c)) == (s', false)
  {
    var take := DoMalloc(H.TOTAL_BYTES_AVAIL);
    var b := AfterFirstPage(s);
    steps, s', c := FromOnePage(Next(s, take), b);
    StepThen(s, take, steps, s');
    steps := [take] + steps;
  }

  /** Such a block can be reached: take two whole pages and free the first. */
  lemma HiddenBlockReachable() returns (steps: seq<Step>, s: Slabs, c: Live)
    ensures DoMalloc(0) !in steps && Reaches(Booted(), steps, s)
    ensures Inv(s) && c in LiveBlocks(s) && Free(s, BaseOf(c)) == (s, false)
  {
    BootedBare();
    AfterHelp(Booted());
    steps, s, c := FromNoPage(Next(Booted(), DoHelp));
    StepThen(Booted(), DoHelp, steps, s);
    steps := [DoHelp] + steps;
  }

  /** A request of 0 bytes registers a page that holds no block: the bound on slab pages needs its condition. */
  lemma EmptyPageReachable() returns (steps: seq<Step>, s: Slabs)
    ensures steps == [DoHelp, DoMalloc(0)] && Reaches(Booted(), steps, s)
    ensures Inv(s) && !Occupied(s) && |SlabPages(s)| > |LiveBlocks(s)|
  {
    BootedBare();
    steps, s := EmptyPageFrom(Booted());
  }

  lemma EmptyPageFrom(s: Slabs) returns (steps: seq<Step>, s': Slabs)
    requires Inv(s) && Bare(s) && Occupied(s)
    ensures steps == [DoHelp, DoMalloc(0)] && Reaches(s, steps, s')
    ensures Inv(s') && !Occupied(s') && |SlabPages(s')| > |LiveBlocks(s')|
  {
    AfterHelp(s);
    var s1 := Next(s, DoHelp);
    steps, s' := AfterEmptyRequest(s1);
    StepThen(s, DoHelp, steps, s');
    steps := [DoHelp] + steps;
  }

  lemma AfterEmptyRequest(s: Slabs) returns (steps: seq<Step>, s': Slabs)
    requires Inv(s) && Occupied(s) && s.mother.Some? && s.slots == NoPages() && 0 < FreeCount(s.tags)
    requires LiveBlocks(s) == {}
    ensures steps == [DoMalloc(0)] && Reaches(s, steps, s')
    ensures Inv(s') && !Occupied(s') && |SlabPages(s')| > |LiveBlocks(s')|
  {
    s' := Next(s, DoMalloc(0));
    MallocOccupied(s, 0);
    MallocFails(s, 0);
    MallocMeaning(s, 0);
    var i :| 0 <= i < MAX_4KB_HEAP && s'.slots[i].Some?;
    assert s'.slots[i].value in SlabPages(s');
    OneStep(s, DoMalloc(0));
    steps := [DoMalloc(0)];
  }

  lemma OneStep(s: Slabs, step: Step)
    requires Inv(s) && Enabled(s, step)
    ensures Reaches(s, [step], Next(s, step))
  {
    assert [step][1..] == [];
  }

  lemma StepThen(s: Slabs, step: Step, steps: seq<Step>, s': Slabs)
    requires Inv(s) && Enabled(s, step) && Reaches(Next(s, step), steps, s')
    ensures Reaches(s, [step] + steps, s')
  {
    assert ([step] + steps)[1..] == steps;
  }
}
