/** kheap.c: the one kernel heap, 100 MiB of pages from 16 MiB up, with its tag table at 0x7e00. */
module KernelHeap {
  import opened Bytes
  import opened TagTable
  import opened PageHeap

  const KHEAP_SIZE_BYTES: nat := 0x6400000
  const KHEAP_START: nat := 0x1000000
  const KHEAP_TABLE: nat := 0x7e00
  const KHEAP_END: nat := KHEAP_START + KHEAP_SIZE_BYTES
  const PAGES: nat := KHEAP_SIZE_BYTES / KHEAP_BLOCK_SIZE

  function PageAddress(p: nat): nat {
    KHEAP_START + p * KHEAP_BLOCK_SIZE
  }

  predicate InPage(a: int, p: nat) {
    PageAddress(p) <= a < PageAddress(p + 1)
  }

  predicate InTagTable(a: int) {
    KHEAP_TABLE <= a < KHEAP_TABLE + PAGES
  }

  /** Address handed out for a page placement. */
  function AddressOf(at: Option<nat>): nat {
    match at
    case None => NULL
    case Some(p) => PageAddress(p)
  }

  /** The address of an extent leads back to the extent. */
  lemma ReleaseAt(t: Table, e: Extent, addr: nat)
    requires WellFormed(t) && e in Extents(t) && addr == PageAddress(e.start)
    ensures (addr - KHEAP_START) / KHEAP_BLOCK_SIZE == e.start < |t|
    ensures Extents(Release(t, e.start).0) == Extents(t) - {e}
  {
    ReleaseMeaning(t, e.start);
    assert Extent(e.start, e.len) == e;
  }

  class Kernel {
    const ram: array<byte>
    const heap: Heap

    constructor (ram: array<byte>)
      requires ram.Length == KHEAP_END
      ensures this.ram == ram && heap.ram == ram && fresh(heap)
    {
      this.ram := ram;
      heap := new Heap(ram);
    }

    ghost predicate Valid()
      reads this, heap
    {
      && ram.Length == KHEAP_END
      && heap.ram == ram
      && heap.table == Some(HeapTable(KHEAP_TABLE, PAGES))
      && heap.startAddr == KHEAP_START
      && heap.endAddr == KHEAP_END
    }

    ghost function Tags(): (t: Table)
      requires Valid()
      reads this, heap, ram
      ensures |t| == PAGES
    {
      heap.Tags()
    }

    twostate lemma TagsUnwritten()
      requires old(Valid()) && Valid()
      requires forall a :: 0 <= a < ram.Length && InTagTable(a) ==> ram[a] == old(ram[a])
      ensures Tags() == old(Tags())
    {
    }

    /** Sets the heap up; with the fixed constants the checks of heap_create all succeed. */
    method Init()
      requires ram.Length == KHEAP_END && heap.ram == ram
      modifies heap, ram
      ensures Valid() && Tags() == AllFree(PAGES)
      ensures forall a :: 0 <= a < ram.Length && !InTagTable(a) ==> ram[a] == old(ram[a])
    {
      var total := KHEAP_SIZE_BYTES / KHEAP_BLOCK_SIZE;
      var code := heap.Create(KHEAP_START, KHEAP_START + KHEAP_SIZE_BYTES, HeapTable(KHEAP_TABLE, total));
    }

    method Kmalloc(size: uint32) returns (addr: uint32)
      requires Valid()
      modifies ram
      ensures Valid()
      ensures var (t, at) := Place(old(Tags()), BlockCount(size)); Tags() == t && addr == AddressOf(at)
      ensures addr != NULL ==>
                && addr % 4096 == 0 && 0x100_0000 <= addr && addr + size <= 0x740_0000
                && Place(old(Tags()), BlockCount(size)).1 == Some(addr / 4096 - 0x1000)
      ensures forall a :: 0 <= a < ram.Length && !InTagTable(a) ==> ram[a] == old(ram[a])
    {
      addr := heap.Malloc(size);
    }

    /** Clears the requested bytes only, not the whole of the pages it got. */
    method Kzalloc(size: uint32) returns (addr: uint32)
      requires Valid()
      modifies ram
      ensures Valid()
      ensures var (t, at) := Place(old(Tags()), BlockCount(size)); Tags() == t && addr == AddressOf(at)
      ensures addr != NULL ==> KHEAP_START <= addr && addr + size <= KHEAP_END
      ensures addr != NULL ==> forall a :: addr <= a < addr + size ==> ram[a] == 0
      ensures forall a :: 0 <= a < ram.Length && !InTagTable(a) && !(addr != NULL && addr <= a < addr + size) ==>
                ram[a] == old(ram[a])
    {
      BlockCountMeaning(size);
      addr := Kmalloc(size);
      if addr != NULL {
        ghost var t := Tags();
        for k := 0 to size
          invariant forall a :: addr <= a < addr + k ==> ram[a] == 0
          invariant forall a :: 0 <= a < ram.Length && !InTagTable(a) && !(addr <= a < addr + k) ==>
                    ram[a] == old(ram[a])
          invariant forall i :: 0 <= i < PAGES ==> ram[KHEAP_TABLE + i] == t[i]
        {
          ram[addr + k] := 0;
        }
        assert Tags() == t;
      }
    }

    method Kfree(addr: uint32)
      requires Valid() && KHEAP_START <= addr < KHEAP_END
      modifies ram
      ensures Valid()
      ensures Tags() == Release(old(Tags()), (addr - KHEAP_START) / KHEAP_BLOCK_SIZE).0
      ensures forall e :: WellFormed(old(Tags())) && e in Extents(old(Tags())) && addr == PageAddress(e.start) ==>
                Extents(Tags()) == Extents(old(Tags())) - {e}
      ensures forall a :: 0 <= a < ram.Length && !InTagTable(a) ==> ram[a] == old(ram[a])
    {
      ghost var t := Tags();
      forall e | WellFormed(t) && e in Extents(t) && addr == PageAddress(e.start)
        ensures Extents(Release(t, (addr - KHEAP_START) / KHEAP_BLOCK_SIZE).0) == Extents(t) - {e}
      {
        ReleaseAt(t, e, addr);
      }
      heap.Free(addr);
    }
  }
}
