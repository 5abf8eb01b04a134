/**
 heap_cream.c: the slab allocator over pages of the kernel heap, with its slots kept as words in a page of that heap.
 */
module HeapCream {
  import opened Bytes
  import opened Memory
  import PageHeap
  import opened TagTable
  import opened KernelHeap
  import opened SlabMachine
  import opened SlabTheorems
  import opened SlabRuns
  import H = Heap32

  const NULL: uint32 := 0

  /** The word that a slot holds. */
  function SlotWord(slot: Option<nat>): nat {
    match slot
    case None => NULL
    case Some(p) => PageAddress(p)
  }

  /** The pointer for a block, NULL for none. */
  function Pointer(r: Option<Block>): nat {
    match r
    case None => NULL
    case Some(b) => Address(b)
  }

  lemma PageOfKept(s: Slabs, e: Extent, addr: nat)
    requires Shape(s) && e in s.kept && e.start + e.len <= PAGES
    requires Lo(s, KeptPages(e)) <= addr < Hi(s, KeptPages(e))
    ensures var p := (addr - KHEAP_START) / PageHeap.KHEAP_BLOCK_SIZE;
      e.start <= p < e.start + e.len && p < PAGES && InPage(addr, p)
  {
  }

  /** A store into a kept extent hits a page that no allocator looks at. */
  lemma StoreKept(s: Slabs, e: Extent, addr: nat, value: byte)
    requires Inv(s) && e in s.kept && Lo(s, KeptPages(e)) <= addr < Hi(s, KeptPages(e))
    ensures var p := (addr - KHEAP_START) / PageHeap.KHEAP_BLOCK_SIZE;
      && e.start <= p < e.start + e.len && p < PAGES && InPage(addr, p)
      && s.tags[p] != FREE && s.mother != Some(p) && Inv(Store(s, p, addr - PageAddress(p), value))
  {
    PageOfKept(s, e, addr);
    var p := (addr - KHEAP_START) / PageHeap.KHEAP_BLOCK_SIZE;
    KeptPageApart(s, e, p);
    StoreInv(s, e, p, addr - PageAddress(p), value);
  }

  /** The step that heap_cream_malloc takes, and the pointer that it returns. */
  ghost predicate IsMalloc(s: Slabs, size: uint32, s': Slabs, addr: nat)
    requires Shape(s)
  {
    s' == SlabMachine.Malloc(s, size).0 && addr == Pointer(SlabMachine.Malloc(s, size).1)
  }

  ghost predicate IsFree(s: Slabs, ptr: nat, s': Slabs, ok: bool)
    requires Shape(s)
  {
    s' == SlabMachine.Free(s, ptr).0 && ok == SlabMachine.Free(s, ptr).1
  }

  function PageTaken(at: Option<nat>): set<nat> {
    if at.Some? then {at.value} else {}
  }

  /** The pages that a request may write when it adds a page. */
  ghost function SlabWrites(s: Slabs): set<nat>
    requires s.mother.Some?
  {
    {s.mother.value} + PageTaken(Place(s.tags, 1).1)
  }

  lemma SlabWritesOwn(s: Slabs)
    requires s.mother.Some?
    ensures forall q :: q in SlabWrites(s) ==> !Foreign(s, q)
  {
    PlaceSingle(s.tags);
  }

  /** The first 124 bytes of every page. */
  ghost function HeadsOf(bytes: seq<byte>): (heads: seq<Table>)
    requires |bytes| == KHEAP_END
    ensures |heads| == PAGES
    ensures forall p :: 0 <= p < PAGES ==> |heads[p]| == H.TABLE_SIZE
    ensures forall p, k :: 0 <= p < PAGES && 0 <= k < H.TABLE_SIZE ==> heads[p][k] == bytes[PageAddress(p) + k]
  {
    seq(PAGES, p requires 0 <= p < PAGES => bytes[PageAddress(p)..PageAddress(p) + H.TABLE_SIZE])
  }

  lemma StartOfPage(p: nat)
    ensures forall q: nat :: InPage(PageAddress(p), q) ==> q == p
  {
  }

  /** A page that belongs neither to the slab layer nor to the free pages. */
  ghost predicate Foreign(s: Slabs, p: nat) {
    Shape(s) && p < PAGES && s.tags[p] != FREE && s.mother != Some(p) && !Registered(s, p)
  }

  class Cream {
    const kernel: Kernel
    const ram: array<byte>
    var mothermary: uint32
    /** What the bytes mean; Valid ties it to them. */
    ghost var state: Slabs

    ghost predicate Views(s: Slabs)
      reads this, kernel, kernel.heap, ram
    {
      && Shape(s) && kernel.ram == ram && kernel.Valid()
      && s.tags == kernel.Tags()
      && (forall p, k :: 0 <= p < PAGES && s.mother != Some(p) && 0 <= k < H.TABLE_SIZE ==>
            ram[PageAddress(p) + k] == s.heads[p][k])
      && mothermary == SlotWord(s.mother)
      && (s.mother.Some? ==>
            forall i :: 0 <= i < MAX_4KB_HEAP ==> Load32(ram, mothermary + 4 * i) == SlotWord(s.slots[i]))
      && (s.mother.None? ==> forall p :: 0 <= p < PAGES && s.tags[p] == FREE ==> ZeroPage(p))
    }

    ghost predicate ZeroPage(p: nat)
      requires p < PAGES && ram.Length == KHEAP_END
      reads ram
    {
      forall a :: InPage(a, p) ==> ram[a] == 0
    }

    ghost predicate Valid()
      reads this, kernel, kernel.heap, ram
    {
      Views(state) && Inv(state)
    }

    /**
     The slab layer on a kernel heap whose free pages are all zero. Whatever is in use already, such as page tables, is
     kept; right after kheap_init that is nothing.
     */
    constructor (kernel: Kernel)
      requires kernel.Valid() && WellFormed(kernel.Tags())
      requires forall a, p: nat {:trigger InPage(a, p)} ::
                 InPage(a, p) && p < PAGES && kernel.Tags()[p] == FREE ==> kernel.ram[a] == 0
      ensures this.kernel == kernel && ram == kernel.ram && Valid()
      ensures state == BootWith(kernel.Tags(), state.heads)
      ensures kernel.Tags() == AllFree(PAGES) ==> state == Boot()
    {
      this.kernel := kernel;
      ram := kernel.ram;
      mothermary := NULL;
      ghost var heads := HeadsOf(kernel.ram[..]);
      state := BootWith(kernel.Tags(), heads);
      new;
      forall p | 0 <= p < PAGES && kernel.Tags()[p] == FREE
        ensures heads[p] == AllFree(H.TABLE_SIZE) && ZeroPage(p)
      {
        forall k | 0 <= k < H.TABLE_SIZE ensures heads[p][k] == FREE {
          assert InPage(PageAddress(p) + k, p);
        }
      }
      BootWithInv(kernel.Tags(), heads);
      if kernel.Tags() == AllFree(PAGES) { BootWithNothing(heads); }
    }

    /** The four bytes behind the tags of a page. */
    ghost predicate Guarded(p: nat)
      reads this, ram
    {
      && p < PAGES && ram.Length == KHEAP_END
      && ram[PageAddress(p) + 124] == 0xab && ram[PageAddress(p) + 125] == 0xab
      && ram[PageAddress(p) + 126] == 0xab && ram[PageAddress(p) + 127] == 0xab
    }

    /** If a page has been taken, it is the lowest that was free, and it is guarded. */
    ghost predicate NewPageGuarded(tags: Table)
      reads this, ram
    {
      state.tags != tags ==> Place(tags, 1).1.Some? && Guarded(Place(tags, 1).1.value)
    }

    /** No byte of any page has changed, except in these pages. */
    twostate predicate KeptOutside(new ps: set<nat>)
      reads ram
    {
      forall a, q: nat {:trigger InPage(a, q)} ::
        a < ram.Length && q < PAGES && q !in ps && InPage(a, q) ==> ram[a] == old(ram[a])
    }

    /** No byte of a foreign page has changed. */
    twostate predicate ForeignKept(new s: Slabs)
      reads ram
    {
      forall a, q: nat {:trigger InPage(a, q)} :: a < ram.Length && Foreign(s, q) && InPage(a, q) ==>
          ram[a] == old(ram[a])
    }

    twostate lemma ForeignFromKept(new s: Slabs, new ps: set<nat>)
      requires ram.Length == KHEAP_END && KeptOutside(ps)
      requires forall q :: q in ps ==> !Foreign(s, q)
      ensures ForeignKept(s)
    {
    }

    twostate lemma OnlyInPage(new p: nat)
      requires ram.Length == KHEAP_END && p < PAGES
      requires forall a :: 0 <= a < ram.Length && !(PageAddress(p) <= a <= PageAddress(p) + H.DATA_OFFSET_BYTES) ==>
                 ram[a] == old(ram[a])
      ensures KeptOutside({p})
    {
    }

    twostate lemma SlotsUnwritten(s: Slabs)
      requires old(Views(s)) && s.mother.Some? && mothermary == SlotWord(s.mother) && ram.Length == KHEAP_END
      requires forall a :: InPage(a, s.mother.value) ==> ram[a] == old(ram[a])
      ensures forall i :: 0 <= i < MAX_4KB_HEAP ==> Load32(ram, mothermary + 4 * i) == SlotWord(s.slots[i])
    {
      forall i | 0 <= i < MAX_4KB_HEAP ensures Load32(ram, mothermary + 4 * i) == SlotWord(s.slots[i]) {
        assert old(Load32(ram, mothermary + 4 * i)) == SlotWord(s.slots[i]);
      }
    }

    /** Only the page tag table and page p were written. */
    twostate lemma PageWritten(new s: Slabs, new p: nat, new s': Slabs)
      requires old(Views(s)) && kernel.Valid()
      requires mothermary == SlotWord(s.mother)
      requires s.mother != Some(p) && p < PAGES
      requires s.mother.None? ==> s'.tags == s.tags && s.tags[p] != FREE
      requires forall a :: 0 <= a < ram.Length && !InTagTable(a) && !InPage(a, p) ==> ram[a] == old(ram[a])
      requires s'.slots == s.slots && s'.mother == s.mother && s'.tags == kernel.Tags()
      requires |s'.heads| == PAGES && s'.heads[p] == H.TableOf(ram, PageAddress(p))
      requires forall q :: 0 <= q < PAGES && q != p ==> s'.heads[q] == s.heads[q]
      ensures Views(s')
    {
      forall q, k | 0 <= q < PAGES && s.mother != Some(q) && 0 <= k < H.TABLE_SIZE
        ensures ram[PageAddress(q) + k] == s'.heads[q][k]
      {
        assert q != p ==> s'.heads[q][k] == s.heads[q][k];
      }
      if s.mother.Some? {
        SlotsUnwritten(s);
      } else {
        forall q | 0 <= q < PAGES && s.tags[q] == FREE ensures ZeroPage(q) {
          assert old(ZeroPage(q));
        }
      }
    }

    /** Only slot i of `mothermary` was written. */
    twostate lemma SlotWritten(new s: Slabs, new i: nat, new slot: Option<nat>)
      requires old(Views(s)) && kernel.Valid()
      requires mothermary == SlotWord(s.mother)
      requires s.mother.Some? && i < MAX_4KB_HEAP
      requires slot.Some? ==> slot.value < PAGES
      requires Load32(ram, mothermary + 4 * i) == SlotWord(slot)
      requires forall a :: 0 <= a < ram.Length && !(mothermary + 4 * i <= a < mothermary + 4 * i + 4) ==>
                ram[a] == old(ram[a])
      ensures Views(s.(slots := s.slots[i := slot]))
    {
      var m := mothermary;
      forall k | 0 <= k < MAX_4KB_HEAP && k != i ensures Load32(ram, m + 4 * k) == SlotWord(s.slots[k]) {
        assert old(Load32(ram, m + 4 * k)) == SlotWord(s.slots[k]);
      }
      forall q, k | 0 <= q < PAGES && s.mother != Some(q) && 0 <= k < H.TABLE_SIZE
        ensures ram[PageAddress(q) + k] == s.heads[q][k]
      {
        assert old(ram[PageAddress(q) + k]) == s.heads[q][k];
      }
      assert kernel.Tags() == old(kernel.Tags());
    }

    /** Gets the page for the slots. The words it finds there are zero because no page has ever been freed before. */
    method HelpMeMaryMotherOfGod()
      requires Valid() && state.mother.None?
      modifies this`mothermary, this`state, ram
      ensures Valid() && state == Help(old(state))
      ensures ForeignKept(old(state))
    {
      assert Inv(Help(state)) by { HelpInv(state); }
      GetMother();
    }

    method GetMother()
      requires Views(state) && state.mother.None? && WellFormed(state.tags)
      requires forall i :: 0 <= i < MAX_4KB_HEAP ==> state.slots[i].None?
      modifies this`mothermary, this`state, ram
      ensures Views(state) && state == Help(old(state))
      ensures ForeignKept(old(state))
    {
      ghost var s := state;
      TakeMother();
      HelpViews(s);
      state := Help(s);
    }

    method TakeMother()
      requires Views(state)
      modifies this`mothermary, ram
      ensures kernel.Valid()
      ensures var (t, at) := Place(state.tags, 1); kernel.Tags() == t && mothermary == AddressOf(at)
      ensures forall a :: 0 <= a < ram.Length && !InTagTable(a) && a != mothermary ==> ram[a] == old(ram[a])
      ensures mothermary != NULL ==> ram[mothermary] == 0
    {
      mothermary := kernel.Kzalloc(1);
    }

    twostate lemma HelpViews(s: Slabs)
      requires old(Views(s)) && s.mother.None? && kernel.Valid() && WellFormed(s.tags)
      requires forall i :: 0 <= i < MAX_4KB_HEAP ==> s.slots[i].None?
      requires var (t, at) := Place(s.tags, 1); kernel.Tags() == t && mothermary == AddressOf(at)
      requires forall a :: 0 <= a < ram.Length && !InTagTable(a) && a != mothermary ==> ram[a] == old(ram[a])
      requires mothermary != NULL ==> ram[mothermary] == 0
      ensures Views(Help(s))
    {
      var s' := Help(s);
      if s'.mother.Some? {
        PlaceMeaning(s.tags, 1);
        ZeroSlots(s'.mother.value);
        forall q, k | 0 <= q < PAGES && s'.mother != Some(q) && 0 <= k < H.TABLE_SIZE
          ensures ram[PageAddress(q) + k] == s'.heads[q][k]
        {
          assert old(ram[PageAddress(q) + k]) == s.heads[q][k];
        }
      } else {
        PlaceMeaning(s.tags, 1);
        forall p | 0 <= p < PAGES && s'.tags[p] == FREE ensures ZeroPage(p) {
          assert old(ZeroPage(p));
        }
        forall q, k | 0 <= q < PAGES && 0 <= k < H.TABLE_SIZE ensures ram[PageAddress(q) + k] == s'.heads[q][k] {
          assert old(ram[PageAddress(q) + k]) == s.heads[q][k];
        }
      }
    }

    twostate lemma ZeroSlots(p: nat)
      requires ram.Length == KHEAP_END && p < PAGES && old(ZeroPage(p)) && ram[PageAddress(p)] == 0
      requires forall a :: InPage(a, p) && a != PageAddress(p) ==> ram[a] == old(ram[a])
      ensures forall i :: 0 <= i < MAX_4KB_HEAP ==> Load32(ram, PageAddress(p) + 4 * i) == 0
    {
    }

    lemma HeadOf(s: Slabs, p: nat)
      requires Views(s) && p < PAGES && s.mother != Some(p)
      ensures H.HasPage(ram, PageAddress(p)) && H.TableOf(ram, PageAddress(p)) == s.heads[p]
    {
      forall k | 0 <= k < H.TABLE_SIZE ensures H.TableOf(ram, PageAddress(p))[k] == s.heads[p][k] {
        assert ram[PageAddress(p) + k] == s.heads[p][k];
      }
    }

    /** The page that kzalloc(1) returned: tagged, and its first byte cleared. */
    twostate lemma NewPageViews(new s: Slabs, new p: nat, new s1: Slabs)
      requires old(Views(s)) && kernel.Valid() && mothermary == SlotWord(s.mother)
      requires s.mother.Some? && s.mother != Some(p) && p < PAGES
      requires s1 == s.(tags := kernel.Tags(), heads := s.heads[p := Put(s.heads[p], 0, FREE)])
      requires ram[PageAddress(p)] == FREE
      requires forall a :: 0 <= a < ram.Length && !InTagTable(a) && a != PageAddress(p) ==> ram[a] == old(ram[a])
      ensures Views(s1)
    {
      assert H.HasPage(ram, PageAddress(p));
      forall k | 0 <= k < H.TABLE_SIZE ensures H.TableOf(ram, PageAddress(p))[k] == s1.heads[p][k] {
        assert old(ram[PageAddress(p) + k]) == s.heads[p][k];
      }
      assert H.TableOf(ram, PageAddress(p)) == s1.heads[p];
      PageWritten(s, p, s1);
    }

    /** Only the page tag table was written, and it has no new free page. */
    twostate lemma TagsWritten(s: Slabs)
      requires old(Views(s)) && kernel.Valid() && mothermary == SlotWord(s.mother)
      requires s.mother.None? ==> forall p :: 0 <= p < PAGES && kernel.Tags()[p] == FREE ==> s.tags[p] == FREE
      requires forall a :: 0 <= a < ram.Length && !InTagTable(a) ==> ram[a] == old(ram[a])
      ensures Views(s.(tags := kernel.Tags()))
    {
      forall q, k | 0 <= q < PAGES && s.mother != Some(q) && 0 <= k < H.TABLE_SIZE
        ensures ram[PageAddress(q) + k] == s.heads[q][k]
      {
        assert old(ram[PageAddress(q) + k]) == s.heads[q][k];
      }
      if s.mother.Some? {
        SlotsUnwritten(s);
      } else {
        forall p | 0 <= p < PAGES && kernel.Tags()[p] == FREE ensures ZeroPage(p) {
          assert old(ZeroPage(p));
        }
      }
    }

    // ----- Allocation

    /** malloc_32 on one page. */
    method MallocInPage(ghost p: nat, page: nat, size: uint32) returns (addr: nat)
      requires Views(state) && state.mother.Some? && state.mother != Some(p) && p < PAGES && page == PageAddress(p)
      modifies this`state, ram
      ensures Views(state)
      ensures KeptOutside({p})
      ensures old(Guarded(p)) ==> Guarded(p)
      ensures var (s', r) := PlaceInPage(old(state), p, H.Blocks(size)); state == s' && addr == Pointer(r)
      ensures state.tags == old(state).tags
    {
      HeadOf(state, p);
      ghost var s := state;
      addr := H.Malloc32(ram, page, size);
      assert old(Guarded(p)) ==> Guarded(p);
      OnlyInPage(p);
      ghost var s' := PlaceInPage(s, p, H.Blocks(size)).0;
      assert s'.heads == s.heads[p := H.TableOf(ram, page)];
      assert kernel.Tags() == s.tags by { kernel.TagsUnwritten(); }
      PageWritten(s, p, s');
      state := s';
    }

    /** kzalloc(1): a page whose first byte only has been cleared. */
    method TakePage() returns (page: uint32)
      requires Views(state) && state.mother.Some? && state.tags[state.mother.value] != FREE
      modifies this`state, ram
      ensures Views(state)
      ensures KeptOutside(PageTaken(Place(old(state).tags, 1).1))
      ensures var (t, at) := Place(old(state).tags, 1);
        && page == AddressOf(at)
        && (at.None? ==> state == old(state))
        && (at.Some? ==>
              && at.value < PAGES && state.mother != at
              && state == old(state).(
                   tags := t,
                   heads := old(state).heads[at.value := Put(old(state).heads[at.value], 0, FREE)]))
    {
      ghost var s := state;
      ghost var (t, at) := Place(s.tags, 1);
      page := kernel.Kzalloc(1);
      if at.Some? {
        StartOfPage(at.value);
        state := s.(tags := t, heads := s.heads[at.value := Put(s.heads[at.value], 0, FREE)]);
        NewPageViews(s, at.value, state);
      } else {
        TagsWritten(s);
      }
    }

    method StoreSlot(i: nat, word: uint32, ghost slot: Option<nat>)
      requires Views(state) && state.mother.Some? && i < MAX_4KB_HEAP
      requires word == SlotWord(slot) && (slot.Some? ==> slot.value < PAGES)
      modifies this`state, ram
      ensures Views(state) && state == old(state).(slots := old(state).slots[i := slot])
      ensures KeptOutside({state.mother.value})
    {
      Store32(ram, mothermary + 4 * i, word);
      SlotWritten(state, i, slot);
      state := state.(slots := state.slots[i := slot]);
    }

    method GuardPage(ghost p: nat, page: nat)
      requires Views(state) && state.mother.Some? && state.mother != Some(p) && p < PAGES && page == PageAddress(p)
      modifies ram
      ensures Views(state)
      ensures KeptOutside({p})
      ensures Guarded(p)
    {
      HeadOf(state, p);
      H.TableGuardSet(ram, page);
      PageWritten(state, p, state);
    }

    /** Registers a page from the page allocator in slot i, if there is one, and sets its guard bytes. */
    method AddPage(i: nat) returns (page: uint32)
      requires Views(state) && state.mother.Some? && i < MAX_4KB_HEAP && state.slots[i].None?
      requires state.tags[state.mother.value] != FREE
      modifies this`state, ram
      ensures Views(state)
      ensures KeptOutside(SlabWrites(old(state)))
      ensures NewPageGuarded(old(state).tags)
      ensures Place(old(state).tags, 1).1.None? ==> page == NULL && state == old(state)
      ensures Place(old(state).tags, 1).1.Some? ==>
                page == PageAddress(Place(old(state).tags, 1).1.value) && state == WithNewPage(old(state), i)
    {
      ghost var at := Place(state.tags, 1).1;
      page := TakePage();
      assert at.None? ==> state.slots[i := at] == state.slots;
      StoreSlot(i, page, at);
      if page != NULL {
        GuardPage(at.value, page);
      }
    }

    /** First fit over the registered pages up to the first zero slot; a further page if none of them has room. */
    method Malloc(size: uint32) returns (addr: nat)
      requires Valid() && state.mother.Some?
      modifies this`state, ram
      ensures Valid()
      ensures ForeignKept(old(state))
      ensures var (s', r) := SlabMachine.Malloc(old(state), size); state == s' && addr == Pointer(r)
      ensures size > 3968 ==>
                addr == NULL && state == old(state) && forall a :: 0 <= a < ram.Length ==> ram[a] == old(ram[a])
      ensures addr != NULL ==> exists b: Live ::
                && b !in LiveBlocks(old(state)) && LiveBlocks(state) == LiveBlocks(old(state)) + {b}
                && addr == BaseOf(b) && size <= 32 * b.e.len < size + 32
      ensures addr != NULL ==> addr % 32 == 0 && 128 <= addr % 4096 && addr % 4096 + size <= 4096
      ensures NewPageGuarded(old(state).tags)
    {
      assert Inv(SlabMachine.Malloc(state, size).0) by { MallocInv(state, size); }
      ghost var s := state;
      addr := MallocScan(size);
      if addr != NULL {
        ghost var b := MallocBlock(s, size);
        BlockInPage(state, b);
      }
    }

    /** mothermary[i] */
    function LoadSlot(i: nat): (word: uint32)
      requires Views(state) && state.mother.Some? && i < MAX_4KB_HEAP
      reads this, kernel, kernel.heap, ram
      ensures word == SlotWord(state.slots[i])
    {
      Load32(ram, mothermary + 4 * i)
    }

    /** One round of the scan: tries the page of slot i. */
    method MallocInSlotPage(i: nat, word: nat, size: uint32) returns (addr: nat)
      requires Views(state) && state.mother.Some? && i < MAX_4KB_HEAP && state.slots[i].Some?
      requires state.slots[i] != state.mother && size <= H.TOTAL_BYTES_AVAIL
      requires word == PageAddress(state.slots[i].value)
      requires FirstRoom(state, H.Blocks(size), i) == FirstRoom(state, H.Blocks(size), 0)
      modifies this`state, ram
      ensures Views(state)
      ensures ForeignKept(old(state))
      ensures addr != NULL ==> IsMalloc(old(state), size, state, addr)
      ensures addr == NULL ==>
                state == old(state) && FirstRoom(state, H.Blocks(size), i + 1) == FirstRoom(state, H.Blocks(size), 0)
      ensures state.tags == old(state).tags
    {
      MallocHere(state, size, i);
      ghost var s := state;
      addr := MallocInPage(state.slots[i].value, word, size);
      ForeignFromKept(s, {s.slots[i].value});
    }

    method MallocScan(size: uint32) returns (addr: nat)
      requires Views(state) && state.mother.Some? && state.tags[state.mother.value] != FREE
      requires forall i :: 0 <= i < MAX_4KB_HEAP && state.slots[i].Some? ==> state.slots[i] != state.mother
      modifies this`state, ram
      ensures Views(state)
      ensures ForeignKept(old(state))
      ensures IsMalloc(old(state), size, state, addr)
      ensures size > H.TOTAL_BYTES_AVAIL ==> forall a :: 0 <= a < ram.Length ==> ram[a] == old(ram[a])
      ensures NewPageGuarded(old(state).tags)
    {
      addr := NULL;
      if size > H.TOTAL_BYTES_AVAIL {
        return;
      }
      var i;
      addr, i := MallocInPages(size);
      if addr == NULL && i < MAX_4KB_HEAP {
        addr := MallocLast(i, size);
      }
    }

    /** The loop over the registered pages up to the first zero slot, which is slot i. */
    method MallocInPages(size: uint32) returns (addr: nat, i: nat)
      requires Views(state) && state.mother.Some? && size <= H.TOTAL_BYTES_AVAIL
      requires forall i :: 0 <= i < MAX_4KB_HEAP && state.slots[i].Some? ==> state.slots[i] != state.mother
      modifies this`state, ram
      ensures Views(state) && ForeignKept(old(state))
      ensures addr != NULL ==> IsMalloc(old(state), size, state, addr)
      ensures addr == NULL ==> state == old(state) && FirstRoom(state, H.Blocks(size), 0) == i
      ensures addr == NULL && i < MAX_4KB_HEAP ==> state.slots[i].None?
      ensures state.tags == old(state).tags
    {
      ghost var s, n := state, H.Blocks(size);
      addr, i := NULL, 0;
      var word := LoadSlot(i);
      while i < MAX_4KB_HEAP && word != NULL
        invariant i <= MAX_4KB_HEAP && addr == NULL && state == s && Views(state) && ForeignKept(s)
        invariant i < MAX_4KB_HEAP ==> word == SlotWord(s.slots[i])
        invariant FirstRoom(s, n, i) == FirstRoom(s, n, 0)
      {
        addr := MallocInSlotPage(i, word, size);
        if addr != NULL {
          return;
        }
        i := i + 1;
        if i < MAX_4KB_HEAP {
          word := LoadSlot(i);
        }
      }
    }

    method MallocLast(i: nat, size: uint32) returns (addr: nat)
      requires Views(state) && state.mother.Some? && state.tags[state.mother.value] != FREE
      requires size <= H.TOTAL_BYTES_AVAIL
      requires FirstRoom(state, H.Blocks(size), 0) == i < MAX_4KB_HEAP && state.slots[i].None?
      modifies this`state, ram
      ensures Views(state) && ForeignKept(old(state))
      ensures IsMalloc(old(state), size, state, addr)
      ensures NewPageGuarded(old(state).tags)
    {
      ghost var s := state;
      SlabWritesOwn(s);
      addr := MallocInNewPage(i, size);
      ForeignFromKept(s, SlabWrites(s));
    }

    /** The last part of heap_cream_malloc, when every visible page is full and slot i is zero. */
    method MallocInNewPage(i: nat, size: uint32) returns (addr: nat)
      requires Views(state) && state.mother.Some? && state.tags[state.mother.value] != FREE
      requires size <= H.TOTAL_BYTES_AVAIL
      requires FirstRoom(state, H.Blocks(size), 0) == i < MAX_4KB_HEAP && state.slots[i].None?
      modifies this`state, ram
      ensures Views(state)
      ensures KeptOutside(SlabWrites(old(state)))
      ensures IsMalloc(old(state), size, state, addr)
      ensures NewPageGuarded(old(state).tags)
    {
      ghost var at := Place(state.tags, 1).1;
      addr := NULL;
      var page := AddPage(i);
      if page != NULL {
        addr := MallocInPage(at.value, page, size);
      }
    }

    // ----- Release

    /** heap32_free on one page. */
    method FreeInPage(ghost p: nat, page: nat, ptr: nat) returns (ok: bool)
      requires Views(state) && state.mother.Some? && state.mother != Some(p) && p < PAGES && page == PageAddress(p)
      requires InPage(ptr, p) && WellFormed(state.heads[p])
      modifies this`state, ram
      ensures Views(state)
      ensures KeptOutside({p})
      ensures ok <==> Hits(old(state), p, ptr)
      ensures state == if ok then ClearBlock(old(state), p, ptr) else old(state)
    {
      HeadOf(state, p);
      ghost var s := state;
      ok := H.Free32(ram, page, ptr);
      OnlyInPage(p);
      ghost var s' := if ok then ClearBlock(s, p, ptr) else s;
      assert kernel.Tags() == s.tags by { kernel.TagsUnwritten(); }
      assert H.TableOf(ram, page) == s'.heads[p];
      PageWritten(s, p, s');
      state := s';
    }

    /** Gives the page of slot i back and leaves a zero in the slot. */
    method HeapCreamKill(i: nat)
      requires Views(state) && state.mother.Some? && i < MAX_4KB_HEAP && state.slots[i].Some?
      modifies this`state, ram
      ensures Views(state) && state == Retire(old(state), i)
      ensures KeptOutside({state.mother.value})
    {
      ReturnPage(i);
      StoreSlot(i, NULL, None);
    }

    method ReturnPage(i: nat)
      requires Views(state) && state.mother.Some? && i < MAX_4KB_HEAP && state.slots[i].Some?
      modifies this`state, ram
      ensures Views(state) && state == old(state).(tags := Release(old(state).tags, old(state).slots[i].value).0)
      ensures KeptOutside({})
    {
      ghost var s := state;
      var page := LoadSlot(i);
      kernel.Kfree(page);
      assert (page - KHEAP_START) / PageHeap.KHEAP_BLOCK_SIZE == s.slots[i].value;
      TagsWritten(s);
      state := s.(tags := kernel.Tags());
    }

    /** Retires the page of slot i if none of its 124 tags is in use. */
    method HeapCreamSingleChkKill(i: nat)
      requires Views(state) && state.mother.Some? && i < MAX_4KB_HEAP && state.slots[i].Some?
      requires state.slots[i] != state.mother
      modifies this`state, ram
      ensures Views(state)
      ensures KeptOutside({state.mother.value})
      ensures state
           == if old(state).heads[old(state).slots[i].value] == AllFree(H.TABLE_SIZE) then Retire(old(state), i)
              else old(state)
    {
      ghost var t := state.heads[state.slots[i].value];
      var page := Load32(ram, mothermary + 4 * i);
      assert page == SlotWord(state.slots[i]);
      HeadOf(state, state.slots[i].value);
      var j := 0;
      while j < H.TABLE_SIZE && ram[page + j] == FREE
        invariant j <= H.TABLE_SIZE
        invariant forall k :: 0 <= k < j ==> t[k] == FREE
      {
        assert t[j] == ram[page + j];
        j := j + 1;
      }
      assert j < H.TABLE_SIZE ==> t[j] == ram[page + j];
      if j == H.TABLE_SIZE {
        assert t == AllFree(H.TABLE_SIZE);
        HeapCreamKill(i);
      }
    }

    /** Frees the block at ptr in the first visible page that holds it, and the page with it if it becomes empty. */
    method Free(ptr: uint32) returns (ok: bool)
      requires Valid() && state.mother.Some?
      modifies this`state, ram
      ensures Valid()
      ensures ForeignKept(old(state))
      ensures (state, ok) == SlabMachine.Free(old(state), ptr)
    {
      if ptr == NULL {
        NullNeverHits(state);
        return false;
      }
      assert Inv(SlabMachine.Free(state, ptr).0) by { FreeInv(state, ptr); }
      ok := FreeScan(ptr);
    }

    /** Tries to free ptr in the page of slot i. */
    method FreeInSlotPage(i: nat, word: nat, ptr: nat) returns (ok: bool)
      requires Views(state) && state.mother.Some? && i < MAX_4KB_HEAP && state.slots[i].Some?
      requires state.slots[i] != state.mother && WellFormed(state.heads[state.slots[i].value])
      requires word == PageAddress(state.slots[i].value)
      requires FirstHit(state, ptr, i) == FirstHit(state, ptr, 0)
      modifies this`state, ram
      ensures Views(state)
      ensures KeptOutside({old(state).slots[i].value, old(state).mother.value})
      ensures ok ==> IsFree(old(state), ptr, state, true)
      ensures !ok ==> state == old(state) && FirstHit(state, ptr, i + 1) == FirstHit(state, ptr, 0)
    {
      ghost var p := state.slots[i].value;
      FreeHere(state, ptr, i);
      ok := false;
      if word <= ptr && ptr - word < H.PAGE_BYTES {
        ok := FreeInPage(p, word, ptr);
        if ok {
          HeapCreamSingleChkKill(i);
        }
      }
    }

    /** One round of the scan; no foreign page is written. */
    method FreeInSlot(i: nat, word: nat, ptr: nat) returns (ok: bool)
      requires Views(state) && state.mother.Some? && i < MAX_4KB_HEAP && state.slots[i].Some?
      requires state.slots[i] != state.mother && WellFormed(state.heads[state.slots[i].value])
      requires word == PageAddress(state.slots[i].value)
      requires FirstHit(state, ptr, i) == FirstHit(state, ptr, 0)
      modifies this`state, ram
      ensures Views(state) && ForeignKept(old(state))
      ensures ok ==> IsFree(old(state), ptr, state, true)
      ensures !ok ==> state == old(state) && FirstHit(state, ptr, i + 1) == FirstHit(state, ptr, 0)
    {
      ghost var s := state;
      ok := FreeInSlotPage(i, word, ptr);
      ForeignFromKept(s, {s.slots[i].value, s.mother.value});
    }

    method FreeScan(ptr: uint32) returns (ok: bool)
      requires Views(state) && state.mother.Some?
      requires forall i :: 0 <= i < MAX_4KB_HEAP && state.slots[i].Some? ==>
                 state.slots[i] != state.mother && WellFormed(state.heads[state.slots[i].value])
      modifies this`state, ram
      ensures Views(state)
      ensures ForeignKept(old(state))
      ensures IsFree(old(state), ptr, state, ok)
    {
      ghost var s := state;
      ok := false;
      var i := 0;
      var word := LoadSlot(i);
      while i < MAX_4KB_HEAP && word != NULL
        invariant i <= MAX_4KB_HEAP && state == s && Views(state) && !ok && ForeignKept(s)
        invariant i < MAX_4KB_HEAP ==> word == SlotWord(s.slots[i])
        invariant FirstHit(s, ptr, i) == FirstHit(s, ptr, 0)
      {
        ok := FreeInSlot(i, word, ptr);
        if ok {
          return;
        }
        i := i + 1;
        if i < MAX_4KB_HEAP {
          word := LoadSlot(i);
        }
      }
    }

    // ----- The rest of the kernel

    /** kmalloc by code that never frees what it gets. */
    method Kmalloc(size: uint32) returns (addr: uint32)
      requires Valid()
      modifies this`state, ram
      ensures Valid()
      ensures ForeignKept(old(state))
      ensures state == SlabMachine.Kmalloc(old(state), size)
      ensures addr == AddressOf(Place(old(state).tags, PageHeap.BlockCount(size)).1)
    {
      assert Inv(SlabMachine.Kmalloc(state, size)) by { KmallocInv(state, size); }
      addr := KmallocOnly(size);
    }

    method KmallocOnly(size: uint32) returns (addr: uint32)
      requires Views(state) && WellFormed(state.tags)
      modifies this`state, ram
      ensures Views(state)
      ensures ForeignKept(old(state))
      ensures state == SlabMachine.Kmalloc(old(state), size)
      ensures addr == AddressOf(Place(old(state).tags, PageHeap.BlockCount(size)).1)
    {
      ghost var s := state;
      addr := TakePages(size);
      ForeignFromKept(s, {});
      state := SlabMachine.Kmalloc(s, size);
    }

    method TakePages(size: uint32) returns (addr: uint32)
      requires Views(state) && WellFormed(state.tags)
      modifies this`state, ram
      ensures Views(state) && KeptOutside({})
      ensures state == old(state).(tags := Place(old(state).tags, PageHeap.BlockCount(size)).0)
      ensures addr == AddressOf(Place(old(state).tags, PageHeap.BlockCount(size)).1)
    {
      ghost var s := state;
      PlaceMeaning(s.tags, PageHeap.BlockCount(size));
      addr := kernel.Kmalloc(size);
      TagsWritten(s);
      state := s.(tags := kernel.Tags());
    }

    /** A client stores into a slab block it owns: no allocator sees it. */
    method StoreInBlock(ghost b: Live, addr: nat, value: byte)
      requires Valid() && state.mother.Some? && b in LiveBlocks(state)
      requires Lo(state, Data(b)) <= addr < Hi(state, Data(b))
      modifies ram
      ensures Valid() && ram[addr] == value && KeptOutside({b.page})
    {
      assert state.mother != Some(b.page) && b.e.start + b.e.len <= H.TABLE_SIZE;
      StoreInPage(b.page, addr, value, state);
    }

    /** A client stores into pages it got from kmalloc: the first bytes of such a page may turn into anything. */
    method StoreInKept(ghost e: Extent, addr: nat, value: byte)
      requires Valid() && e in state.kept && Lo(state, KeptPages(e)) <= addr < Hi(state, KeptPages(e))
      modifies this`state, ram
      ensures Valid() && ram[addr] == value
      ensures var p := (addr - KHEAP_START) / PageHeap.KHEAP_BLOCK_SIZE;
        && e.start <= p < e.start + e.len && p < PAGES && state == Store(old(state), p, addr - PageAddress(p), value)
        && KeptOutside({p})
    {
      ghost var s, p := state, (addr - KHEAP_START) / PageHeap.KHEAP_BLOCK_SIZE;
      StoreKept(s, e, addr, value);
      StoreInPage(p, addr, value, Store(s, p, addr - PageAddress(p), value));
      state := Store(s, p, addr - PageAddress(p), value);
    }

    method StoreInPage(ghost p: nat, addr: nat, value: byte, ghost s': Slabs)
      requires Views(state) && p < PAGES && InPage(addr, p) && state.mother != Some(p)
      requires s' == Store(state, p, addr - PageAddress(p), value)
      requires state.mother.None? ==> state.tags[p] != FREE
      modifies ram
      ensures Views(s') && ram[addr] == value && KeptOutside({p})
    {
      HeadOf(state, p);
      ghost var s := state;
      ram[addr] := value;
      assert kernel.Tags() == s.tags by { kernel.TagsUnwritten(); }
      assert H.TableOf(ram, PageAddress(p)) == s'.heads[p];
      PageWritten(s, p, s');
    }
  }

  lemma NullNeverHits(s: Slabs)
    requires Shape(s)
    ensures SlabMachine.Free(s, NULL) == (s, false)
  {
  }

  lemma FreeHere(s: Slabs, ptr: nat, i: nat)
    requires Shape(s) && i < MAX_4KB_HEAP && s.slots[i].Some? && FirstHit(s, ptr, i) == FirstHit(s, ptr, 0)
    ensures if Hits(s, s.slots[i].value, ptr) then SlabMachine.Free(s, ptr) == (FreeInSlot(s, i, ptr), true)
            else FirstHit(s, ptr, i + 1) == FirstHit(s, ptr, 0)
    ensures Hits(s, s.slots[i].value, ptr) ==> InPage(ptr, s.slots[i].value)
  {
  }

  lemma MallocHere(s: Slabs, size: uint32, i: nat)
    requires Shape(s) && size <= H.TOTAL_BYTES_AVAIL && i < MAX_4KB_HEAP && s.slots[i].Some?
    requires FirstRoom(s, H.Blocks(size), i) == FirstRoom(s, H.Blocks(size), 0)
    ensures var r := PlaceInPage(s, s.slots[i].value, H.Blocks(size));
      if r.1.Some? then SlabMachine.Malloc(s, size) == r
      else r.0 == s && FirstRoom(s, H.Blocks(size), i + 1) == FirstRoom(s, H.Blocks(size), 0)
  {
  }
}
