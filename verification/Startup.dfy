/** The order in which kernel.c sets memory up, and what the page tables built first live through afterwards. */
module Startup {
  import opened Bytes
  import opened TagTable
  import opened KernelHeap
  import opened SlabMachine
  import opened SlabTheorems
  import opened HeapCream
  import Paging

  // ----- Pages that nobody gives back

  lemma ForeignIsKept(s: Slabs, p: nat) returns (e: Extent)
    requires Inv(s) && Foreign(s, p)
    ensures e in s.kept && e.start <= p < e.start + e.len
  {
    e := Owner(s.tags, p);
    assert s.tags[e.start] == RunTag(e.len, 0);
    assert Owned(s, e);
  }

  /** A page in use by others stays in use by others, whatever step the allocator takes. */
  lemma ForeignStays(s: Slabs, s': Slabs, p: nat)
    requires Inv(s) && Inv(s') && s.kept <= s'.kept && Foreign(s, p)
    ensures Foreign(s', p)
  {
    var e := ForeignIsKept(s, p);
    KeptPageApart(s', e, p);
  }

  ghost predicate AllForeign(s: Slabs, pages: seq<nat>) {
    forall x :: 0 <= x < |pages| ==> Foreign(s, pages[x])
  }

  lemma AllForeignStay(s: Slabs, s': Slabs, pages: seq<nat>)
    requires Inv(s) && Inv(s') && s.kept <= s'.kept && AllForeign(s, pages)
    ensures AllForeign(s', pages)
  {
    forall x | 0 <= x < |pages| ensures Foreign(s', pages[x]) { ForeignStays(s, s', pages[x]); }
  }

  /** A walk through tables in foreign pages is not affected by what the allocator writes. */
  twostate lemma WalkSurvives(c: Cream, new s: Slabs, new dir: nat, new pages: seq<nat>)
    requires c.ram.Length == KHEAP_END && old(Paging.SpaceIn(c.ram, dir, pages))
    requires AllForeign(s, pages) && c.ForeignKept(s)
    ensures Paging.SpaceIn(c.ram, dir, pages)
    ensures forall va: uint32 :: Paging.Walk(c.ram, dir, va) == old(Paging.Walk(c.ram, dir, va))
  {
    forall x, a | 0 <= x < |pages| && InPage(a, pages[x]) ensures c.ram[a] == old(c.ram[a]) {
      assert Foreign(s, pages[x]);
    }
    Paging.WalkKept(c.ram, dir, pages);
  }

  // ----- Requests

  datatype Request = Allocate(size: uint32) | Release(addr: uint32) | TakePages(size: uint32)

  /** The address space in the given pages, and the allocator to which those pages are foreign. */
  ghost predicate Running(c: Cream, dir: nat, pages: seq<nat>)
    reads c, c.kernel, c.kernel.heap, c.ram
  {
    && c.Valid() && c.state.mother.Some? && AllForeign(c.state, pages)
    && Paging.SpaceIn(c.ram, dir, pages)
  }

  /** One request to heap_cream_malloc, heap_cream_free or kmalloc, of any size or address. */
  method Handle(c: Cream, r: Request, ghost dir: nat, ghost pages: seq<nat>)
    requires Running(c, dir, pages)
    modifies c`state, c.ram
    ensures Running(c, dir, pages)
    ensures forall va: uint32 :: Paging.Walk(c.ram, dir, va) == old(Paging.Walk(c.ram, dir, va))
  {
    ghost var s := c.state;
    Step(c, r);
    AllForeignStay(s, c.state, pages);
    WalkSurvives(c, s, dir, pages);
  }

  method Step(c: Cream, r: Request)
    requires c.Valid() && c.state.mother.Some?
    modifies c`state, c.ram
    ensures c.Valid() && c.state.mother == old(c.state).mother && old(c.state).kept <= c.state.kept
    ensures c.ForeignKept(old(c.state))
  {
    match r
    case Allocate(size) =>
      MallocInv(c.state, size);
      var addr := c.Malloc(size);
    case Release(addr) =>
      FreeInv(c.state, addr);
      var ok := c.Free(addr);
    case TakePages(size) =>
      KmallocKeeps(c.state, size);
      var addr := c.Kmalloc(size);
  }

  lemma KmallocKeeps(s: Slabs, size: uint32)
    ensures Kmalloc(s, size).mother == s.mother && s.kept <= Kmalloc(s, size).kept
  {
  }

  /** After any number of requests every address is translated as before the first of them. */
  method Serve(c: Cream, rs: seq<Request>, ghost dir: nat, ghost pages: seq<nat>)
    requires Running(c, dir, pages)
    modifies c`state, c.ram
    ensures Running(c, dir, pages)
    ensures forall va: uint32 :: Paging.Walk(c.ram, dir, va) == old(Paging.Walk(c.ram, dir, va))
  {
    for i := 0 to |rs|
      invariant Running(c, dir, pages)
      invariant forall va: uint32 :: Paging.Walk(c.ram, dir, va) == old(Paging.Walk(c.ram, dir, va))
    {
      Handle(c, rs[i], dir, pages);
    }
  }

  // ----- kernel_main

  lemma FreePagesZero(ram: array<byte>, t: Table, pages: seq<nat>, a: int, p: nat)
    requires ram.Length == KHEAP_END && Paging.Took(AllFree(PAGES), t, pages)
    requires forall b :: KHEAP_START <= b < KHEAP_END && !Paging.InPages(b, pages) ==> ram[b] == 0
    requires InPage(a, p) && p < PAGES && t[p] == FREE
    ensures ram[a] == 0
  {
    forall x | 0 <= x < |pages| ensures !InPage(a, pages[x]) {
      assert pages[x] in pages;
    }
  }

  /** Page tables on a fresh kernel heap: all addresses are mapped to themselves, and all free pages are still zero. */
  method BuildPaging(ram: array<byte>, flags: uint32) returns (k: Kernel, dir: uint32, ghost pages: seq<nat>)
    requires ram.Length == KHEAP_END && forall a :: KHEAP_START <= a < KHEAP_END ==> ram[a] == 0
    modifies ram
    ensures fresh(k) && fresh(k.heap) && k.ram == ram && k.Valid() && WellFormed(k.Tags())
    ensures Paging.SpaceIn(ram, dir, pages) && |pages| == Paging.NO_ENTRIES + 1
    ensures forall va: uint32 :: Paging.Walk(ram, dir, va) == Some(Paging.Mapping(va, true))
    ensures FreeCount(k.Tags()) == PAGES - |pages|
    ensures forall x :: 0 <= x < |pages| ==> pages[x] < PAGES && k.Tags()[pages[x]] != FREE
    ensures forall a, p: nat {:trigger InPage(a, p)} :: InPage(a, p) && p < PAGES && k.Tags()[p] == FREE ==> ram[a] == 0
  {
    k := new Kernel(ram);
    k.Init();
    FreeCountConstant(k.Tags(), true);
    dir, pages := Paging.CreateOnFreshHeap(k, flags);
    AllFreeWellFormed(PAGES);
    Paging.TookExtents(AllFree(PAGES), k.Tags(), pages);
    forall a, p: nat | InPage(a, p) && p < PAGES && k.Tags()[p] == FREE ensures ram[a] == 0 {
      FreePagesZero(ram, k.Tags(), pages, a, p);
    }
    forall x | 0 <= x < |pages| ensures k.Tags()[pages[x]] != FREE { assert pages[x] in pages; }
  }

  /** kheap_init, the page tables, then the page for the slots of the slab layer. */
  method Boot(ram: array<byte>, flags: uint32) returns (c: Cream, dir: uint32, ghost pages: seq<nat>)
    requires ram.Length == KHEAP_END && forall a :: KHEAP_START <= a < KHEAP_END ==> ram[a] == 0
    modifies ram
    ensures fresh(c) && c.ram == ram && Running(c, dir, pages)
    ensures forall va: uint32 :: Paging.Walk(ram, dir, va) == Some(Paging.Mapping(va, true))
  {
    var k;
    k, dir, pages := BuildPaging(ram, flags);
    c := new Cream(k);
    StartSlabs(c, dir, pages);
  }

  method StartSlabs(c: Cream, ghost dir: nat, ghost pages: seq<nat>)
    requires c.Valid() && c.state.mother.None? && 0 < FreeCount(c.state.tags)
    requires AllForeign(c.state, pages) && Paging.SpaceIn(c.ram, dir, pages)
    modifies c`mothermary, c`state, c.ram
    ensures Running(c, dir, pages)
    ensures forall va: uint32 :: Paging.Walk(c.ram, dir, va) == old(Paging.Walk(c.ram, dir, va))
  {
    ghost var s := c.state;
    HelpInv(s);
    c.HelpMeMaryMotherOfGod();
    AllForeignStay(s, c.state, pages);
    WalkSurvives(c, s, dir, pages);
  }

  /** From power-up through any sequence of requests every 32-bit address stays mapped to itself, writable. */
  method BootAndServe(ram: array<byte>, flags: uint32, rs: seq<Request>) returns (c: Cream, dir: uint32)
    requires ram.Length == KHEAP_END && forall a :: KHEAP_START <= a < KHEAP_END ==> ram[a] == 0
    modifies ram
    ensures fresh(c) && c.ram == ram && c.Valid() && Paging.HasTable(ram, dir)
    ensures forall va: uint32 :: Paging.Walk(ram, dir, va) == Some(Paging.Mapping(va, true))
  {
    ghost var pages;
    c, dir, pages := Boot(ram, flags);
    Serve(c, rs, dir, pages);
  }
}
