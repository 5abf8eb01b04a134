/** paging.c: the two-level page tables, built from kzalloc pages. The walk is 32-bit paging with 4 KiB pages. */
module Paging {
  import opened Bytes
  import opened Bits
  import PageHeap
  import opened Memory
  import opened TagTable
  import opened KernelHeap

  const PAGING_PRESENT: nat := 1
  const READ_AND_WRITE: nat := 2
  const NO_ENTRIES: nat := 1024
  const PAGE_BLOCK_SIZE: nat := 4096
  const TABLE_SPAN: nat := NO_ENTRIES * PAGE_BLOCK_SIZE
  const NULL: uint32 := 0
  const GEN32_INVARG: int := 2

  // ----- What the processor does with the tables

  /** The entries of a directory or page table. */
  type Words = w: seq<uint32> | |w| == NO_ENTRIES witness seq(NO_ENTRIES, _ => 0)

  datatype Mapping = Mapping(phys: nat, writable: bool)

  ghost predicate HasTable(ram: array<byte>, base: nat) {
    base + PAGE_BLOCK_SIZE <= ram.Length
  }

  ghost function WordsAt(ram: array<byte>, base: nat): (w: Words)
    requires HasTable(ram, base)
    reads ram
  {
    seq(NO_ENTRIES, j requires 0 <= j < NO_ENTRIES && HasTable(ram, base) reads ram => Load32(ram, base + 4 * j))
  }

  predicate Present(e: uint32) {
    e % 2 == 1
  }

  predicate Writable(e: uint32) {
    e / 2 % 2 == 1
  }

  function Frame(e: uint32): nat {
    e - e % PAGE_BLOCK_SIZE
  }

  function DirIndex(va: uint32): (i: nat)
    ensures i < NO_ENTRIES
  {
    va / TABLE_SPAN
  }

  function PageIndex(va: uint32): (j: nat)
    ensures j < NO_ENTRIES
  {
    va / PAGE_BLOCK_SIZE % NO_ENTRIES
  }

  /** The translation of an address by the two entries that its walk reads. */
  function Translate(pde: uint32, pte: uint32, va: uint32): Option<Mapping> {
    if Present(pte) then Some(Mapping(Frame(pte) + va % PAGE_BLOCK_SIZE, Writable(pde) && Writable(pte))) else None
  }

  ghost function Walk(ram: array<byte>, dir: nat, va: uint32): Option<Mapping>
    requires HasTable(ram, dir)
    reads ram
  {
    var pde := WordsAt(ram, dir)[DirIndex(va)];
    if !Present(pde) || !HasTable(ram, Frame(pde)) then None
    else Translate(pde, WordsAt(ram, Frame(pde))[PageIndex(va)], va)
  }

  twostate lemma WordsUnwritten(ram: array<byte>, new base: nat)
    requires HasTable(ram, base)
    requires forall a :: base <= a < base + PAGE_BLOCK_SIZE ==> ram[a] == old(ram[a])
    ensures WordsAt(ram, base) == old(WordsAt(ram, base))
  {
    forall j | 0 <= j < NO_ENTRIES ensures Load32(ram, base + 4 * j) == old(Load32(ram, base + 4 * j)) {}
  }

  method StoreWord(ram: array<byte>, base: nat, j: nat, w: uint32)
    requires HasTable(ram, base) && j < NO_ENTRIES
    modifies ram
    ensures WordsAt(ram, base) == old(WordsAt(ram, base))[j := w]
    ensures forall a :: 0 <= a < ram.Length && !(base + 4 * j <= a < base + 4 * j + 4) ==> ram[a] == old(ram[a])
  {
    Store32(ram, base + 4 * j, w);
    forall i | 0 <= i < NO_ENTRIES && i != j ensures Load32(ram, base + 4 * i) == old(Load32(ram, base + 4 * i)) {}
    assert WordsAt(ram, base) == old(WordsAt(ram, base))[j := w];
  }

  // ----- The entries the kernel writes

  /** a & 0xfff */
  method PageOffset(a: uint32) returns (r: nat)
    ensures r == a % PAGE_BLOCK_SIZE
  {
    PageMasks(a);
    r := BitAnd(a, 0xfff);
  }

  /** a & 0xfffff000 */
  method PageFrame(a: uint32) returns (r: uint32)
    ensures r == Frame(a)
  {
    PageMasks(a);
    r := BitAnd(a, 0xfffff000);
  }

  /** The low twelve bits of every entry written with these flags: the two lowest bits set, the others as given. */
  function LowBits(flags: uint32): (r: nat)
    ensures r < PAGE_BLOCK_SIZE && r % 4 == 3
  {
    var f := flags % PAGE_BLOCK_SIZE;
    f - f % 4 + 3
  }

  /** base | (flags & 0xfff) | READ_AND_WRITE | PAGING_PRESENT */
  method TableWord(base: uint32, flags: uint32) returns (w: uint32)
    requires base % PAGE_BLOCK_SIZE == 0
    ensures w == base + LowBits(flags)
  {
    var low := PageOffset(flags);
    var word := BitOr(BitOr(BitOr(base, low), READ_AND_WRITE), PAGING_PRESENT);
    assert word == base + LowBits(flags) by { PageWord(base, low); }
    FrameRoom(base, LowBits(flags));
    w := word;
  }

  lemma FrameRoom(base: uint32, low: nat)
    requires base % PAGE_BLOCK_SIZE == 0 && low < PAGE_BLOCK_SIZE
    ensures base + low < TWO_32
  {
    var q := base / PAGE_BLOCK_SIZE;
    assert q < 0x10_0000;
  }

  lemma FramePart(base: nat, low: nat)
    requires base % PAGE_BLOCK_SIZE == 0 && low < PAGE_BLOCK_SIZE
    ensures (base + low) % PAGE_BLOCK_SIZE == low
  {
  }

  lemma FlagPart(base: nat, low: nat)
    requires base % PAGE_BLOCK_SIZE == 0 && low % 4 == 3
    ensures (base + low) % 4 == 3
  {
  }

  lemma BothFlags(e: nat)
    requires e % 4 == 3
    ensures e % 2 == 1 && e / 2 % 2 == 1
  {
  }

  /**
   Every entry written, bit by bit: present and writable set, the other low bits those of the flags, the frame's
   above.
   */
  lemma EntryBits(base: uint32, flags: uint32, k: nat)
    requires base % PAGE_BLOCK_SIZE == 0
    ensures Bit(base + LowBits(flags), k) == if k < 2 then 1 else if k < 12 then Bit(flags, k) else Bit(base, k)
  {
    var f := flags % PAGE_BLOCK_SIZE;
    Powers();
    PageWord(base, f);
    OrBits(BitOr(BitOr(base, f), 2), 1, k);
    OrBits(BitOr(base, f), 2, k);
    OrBits(base, f, k);
    BitsOfRemainder(flags, 12, 4096, k);
    BitsOfRemainder(base, 12, 4096, k);
    SmallBits(k);
    ZeroBits(k);
  }

  /** Bit 1 is the only one of 2, bit 0 of 1. */
  lemma SmallBits(k: nat)
    ensures Bit(1, k) == (if k == 0 then 1 else 0) && Bit(2, k) == if k == 1 then 1 else 0
  {
    if k == 1 {
      assert Bit(1, 1) == Bit(0, 0);
    } else if 2 <= k {
      ZeroBits(k - 1);
      ZeroBits(k - 2);
      assert Bit(2, k) == Bit(1, k - 1) == Bit(0, k - 2);
    }
  }

  lemma WordParts(base: nat, low: nat)
    requires base % PAGE_BLOCK_SIZE == 0 && low < PAGE_BLOCK_SIZE && low % 4 == 3 && base + low < TWO_32
    ensures Frame(base + low) == base && Present(base + low) && Writable(base + low)
  {
    FramePart(base, low);
    FlagPart(base, low);
    BothFlags(base + low);
  }

  // ----- get_index_from_virt

  method GetIndexFromVirt(va: uint32) returns (code: int, dirIndex: nat, pageIndex: nat)
    ensures code == 0 <==> va % PAGE_BLOCK_SIZE == 0
    ensures code == 0 ==> dirIndex == DirIndex(va) && pageIndex == PageIndex(va)
    ensures code != 0 ==> code == -GEN32_INVARG
  {
    dirIndex, pageIndex := 0, 0;
    var low := PageOffset(va);
    if low != 0 {
      return -GEN32_INVARG, 0, 0;
    }
    dirIndex := va / (NO_ENTRIES * PAGE_BLOCK_SIZE);
    pageIndex := va % (NO_ENTRIES * PAGE_BLOCK_SIZE) / PAGE_BLOCK_SIZE;
    IndexInSlice(va);
    code := 0;
  }

  lemma IndexInSlice(va: uint32)
    ensures va % TABLE_SPAN / PAGE_BLOCK_SIZE == PageIndex(va)
  {
    var q := va / TABLE_SPAN;
    var r := va - TABLE_SPAN * q;
    assert va / PAGE_BLOCK_SIZE == NO_ENTRIES * q + r / PAGE_BLOCK_SIZE;
  }

  lemma SplitAddress(va: uint32)
    ensures DirIndex(va) * TABLE_SPAN + PageIndex(va) * PAGE_BLOCK_SIZE + va % PAGE_BLOCK_SIZE == va
  {
  }

  /** Aligned addresses and pairs of indices below 1024 correspond one to one. */
  lemma IndexBijection(d: nat, p: nat)
    requires d < NO_ENTRIES && p < NO_ENTRIES
    ensures d * TABLE_SPAN + p * PAGE_BLOCK_SIZE < TWO_32
    ensures forall va: uint32 :: va % PAGE_BLOCK_SIZE == 0 ==>
              (DirIndex(va) == d && PageIndex(va) == p <==> va == d * TABLE_SPAN + p * PAGE_BLOCK_SIZE)
  {
  }

  // ----- create_32_dir_table

  /** The entries that map the i-th 4 MiB of addresses to themselves. */
  ghost predicate MapsSlice(w: Words, i: nat, low: nat) {
    forall j :: 0 <= j < NO_ENTRIES ==> w[j] == i * TABLE_SPAN + j * PAGE_BLOCK_SIZE + low
  }

  /** The inner loop: fills one table; the running offset wraps to 0 only after the last entry of the last table. */
  method FillTable(ram: array<byte>, table: nat, i: nat, offset: uint32, flags: uint32) returns (next: uint32)
    requires HasTable(ram, table) && i < NO_ENTRIES && offset == i * TABLE_SPAN
    modifies ram
    ensures MapsSlice(WordsAt(ram, table), i, LowBits(flags))
    ensures next == (i + 1) * TABLE_SPAN % TWO_32
    ensures forall a :: 0 <= a < ram.Length && !(table <= a < table + PAGE_BLOCK_SIZE) ==> ram[a] == old(ram[a])
  {
    next := offset;
    ghost var w, low := WordsAt(ram, table), LowBits(flags);
    var j := 0;
    while j < NO_ENTRIES
      invariant j <= NO_ENTRIES && WordsAt(ram, table) == w
      invariant next == SlotOffset(i, j)
      invariant forall k :: 0 <= k < j ==> w[k] == i * TABLE_SPAN + k * PAGE_BLOCK_SIZE + low
      invariant forall a :: 0 <= a < ram.Length && !(table <= a < table + PAGE_BLOCK_SIZE) ==> ram[a] == old(ram[a])
    {
      SlotInSpan(i, j);
      var word := TableWord(next, flags);
      StoreWord(ram, table, j, word);
      w := w[j := word];
      next := (next + 0x1000) % TWO_32;
      j := j + 1;
    }
    SlotInSpan(i, NO_ENTRIES);
  }

  /** The running offset at the j-th entry of the i-th table. */
  ghost function SlotOffset(i: nat, j: nat): nat {
    if i + 1 == NO_ENTRIES && j == NO_ENTRIES then 0 else i * TABLE_SPAN + j * PAGE_BLOCK_SIZE
  }

  lemma SlotInSpan(i: nat, j: nat)
    requires i < NO_ENTRIES && j <= NO_ENTRIES
    ensures j < NO_ENTRIES ==>
              SlotOffset(i, j) < TWO_32 && SlotOffset(i, j) % PAGE_BLOCK_SIZE == 0
              && SlotOffset(i, j + 1) == (SlotOffset(i, j) + 0x1000) % TWO_32
    ensures SlotOffset(i, NO_ENTRIES) == (i + 1) * TABLE_SPAN % TWO_32
  {
    if j < NO_ENTRIES {
      assert SlotOffset(i, j) == PAGE_BLOCK_SIZE * (NO_ENTRIES * i + j);
      assert NO_ENTRIES * i + j < 0x10_0000;
    }
  }

  // The construction after some rounds: which pages it owns, what the directory says, what the tables say.

  ghost predicate Owned(tags: Table, dirPage: nat, tables: seq<nat>) {
    && |tags| == PAGES && dirPage < PAGES && tags[dirPage] != FREE
    && (forall x :: 0 <= x < |tables| ==> tables[x] < PAGES && tables[x] != dirPage && tags[tables[x]] != FREE)
    && (forall x, y :: 0 <= x < y < |tables| ==> tables[x] != tables[y])
  }

  /** The first i entries: one for each table, then zeros. */
  ghost predicate DirBuilt(w: Words, tables: seq<nat>, i: nat, low: nat) {
    && |tables| <= i <= NO_ENTRIES
    && (forall x :: 0 <= x < |tables| ==> w[x] == PageAddress(tables[x]) + low)
    && (forall x :: |tables| <= x < i ==> w[x] == 0)
  }

  ghost predicate SlicesBuilt(ram: array<byte>, tables: seq<nat>, low: nat)
    requires ram.Length == KHEAP_END
    reads ram
  {
    forall x :: 0 <= x < |tables| ==> tables[x] < PAGES && MapsSlice(WordsAt(ram, PageAddress(tables[x])), x, low)
  }

  ghost predicate Built(k: Kernel, dirPage: nat, tables: seq<nat>, i: nat, low: nat)
    reads k, k.heap, k.ram
  {
    && k.Valid()
    && Owned(k.Tags(), dirPage, tables)
    && DirBuilt(WordsAt(k.ram, PageAddress(dirPage)), tables, i, low)
    && SlicesBuilt(k.ram, tables, low)
  }

  /** The pages were free single units of t0 and are extents of t, each on its own; no other tag differs. */
  ghost predicate Took(t0: Table, t: Table, pages: seq<nat>) {
    && |t| == |t0|
    && (forall x :: 0 <= x < |pages| ==> pages[x] < |t0| && t0[pages[x]] == FREE)
    && (forall x, y :: 0 <= x < y < |pages| ==> pages[x] != pages[y])
    && (forall i :: 0 <= i < |t| ==> t[i] == if i in pages then SINGLE else t0[i])
  }

  lemma TookMore(t0: Table, t1: Table, t2: Table, ps: seq<nat>, qs: seq<nat>)
    requires Took(t0, t1, ps) && Took(t1, t2, qs)
    ensures Took(t0, t2, ps + qs)
  {
    forall x, y | 0 <= x < |ps| && 0 <= y < |qs| ensures ps[x] != qs[y] {
      assert ps[x] in ps;
    }
    forall y | 0 <= y < |qs| ensures t0[qs[y]] == FREE {
      assert t1[qs[y]] == FREE;
    }
  }

  /** In terms of extents: one of a single page for each of the pages, and all that there were. */
  lemma {:induction false} TookExtents(t0: Table, t: Table, pages: seq<nat>)
    requires WellFormed(t0) && Took(t0, t, pages)
    ensures WellFormed(t) && Extents(t) == Extents(t0) + (set x | 0 <= x < |pages| :: Extent(pages[x], 1))
    decreases |pages|
  {
    if pages == [] {
      assert t == t0;
    } else {
      var n := |pages| - 1;
      var front, p := pages[..n], pages[n];
      var t1 := t[p := FREE];
      forall i | 0 <= i < |t| ensures t1[i] == if i in front then SINGLE else t0[i] {
        assert i in pages <==> i in front || i == p;
        assert p !in front;
      }
      TookExtents(t0, t1, front);
      assert FreeRun(t1, p, 1) && MarkRun(t1, p, 1) == t;
      MarkRunWellFormed(t1, p, 1);
      MarkRunExtents(t1, p, 1);
    }
  }

  ghost predicate InPages(a: int, pages: seq<nat>) {
    exists x :: 0 <= x < |pages| && InPage(a, pages[x])
  }

  lemma InPagesOne(a: int, p: nat)
    ensures InPages(a, [p]) <==> InPage(a, p)
  {
    var ps := [p];
    assert InPage(a, p) <==> InPage(a, ps[0]);
  }

  lemma InPagesSplit(a: int, ps: seq<nat>, qs: seq<nat>)
    ensures InPages(a, ps + qs) <==> InPages(a, ps) || InPages(a, qs)
  {
    var both := ps + qs;
    if x :| 0 <= x < |ps| && InPage(a, ps[x]) {
      assert InPage(a, both[x]);
    }
    if x :| 0 <= x < |qs| && InPage(a, qs[x]) {
      assert InPage(a, both[|ps| + x]);
    }
  }

  lemma OutsideBoth(a: int, p: nat, ps: seq<nat>, qs: seq<nat>)
    requires !InPages(a, [p] + (ps + qs))
    ensures !InPages(a, [p] + ps) && !InPages(a, [p] + qs)
  {
    InPagesSplit(a, [p], ps + qs);
    InPagesSplit(a, ps, qs);
    InPagesSplit(a, [p], ps);
    InPagesSplit(a, [p], qs);
  }

  lemma InPagesMore(a: int, ps: seq<nat>, qs: seq<nat>)
    requires forall p :: p in ps ==> p in qs
    ensures InPages(a, ps) ==> InPages(a, qs)
  {
    if x :| 0 <= x < |ps| && InPage(a, ps[x]) {
      assert ps[x] in qs;
    }
  }

  /** Outside the tag table, only these pages were written. */
  twostate predicate WroteOnly(ram: array<byte>, new pages: seq<nat>)
    reads ram
  {
    forall a :: 0 <= a < ram.Length && !InTagTable(a) && !InPages(a, pages) ==> ram[a] == old(ram[a])
  }

  twostate lemma WroteMore(ram: array<byte>, new ps: seq<nat>, new qs: seq<nat>)
    requires WroteOnly(ram, ps) && forall p :: p in ps ==> p in qs
    ensures WroteOnly(ram, qs)
  {
    forall a | 0 <= a < ram.Length && !InTagTable(a) && !InPages(a, qs) ensures ram[a] == old(ram[a]) {
      InPagesMore(a, ps, qs);
    }
  }

  /** Outside the tag table, only page p was written. */
  twostate predicate WrotePage(ram: array<byte>, p: nat)
    reads ram
  {
    forall a :: 0 <= a < ram.Length && !InTagTable(a) && !(PageAddress(p) <= a < PageAddress(p + 1)) ==>
        ram[a] == old(ram[a])
  }

  twostate lemma SlicesKept(ram: array<byte>, new tables: seq<nat>, new low: nat, new p: nat)
    requires ram.Length == KHEAP_END && old(SlicesBuilt(ram, tables, low)) && WrotePage(ram, p)
    requires forall x :: 0 <= x < |tables| ==> tables[x] != p
    ensures SlicesBuilt(ram, tables, low)
  {
    forall x | 0 <= x < |tables| ensures MapsSlice(WordsAt(ram, PageAddress(tables[x])), x, low) {
      WordsUnwritten(ram, PageAddress(tables[x]));
    }
  }

  /** The last page of the list is in memory, differs from the others, and the others are still owned without it. */
  lemma OwnedApart(tags: Table, dirPage: nat, tables: seq<nat>, p: nat)
    requires Owned(tags, dirPage, tables + [p])
    ensures p < PAGES && p != dirPage && Owned(tags, dirPage, tables)
    ensures forall x :: 0 <= x < |tables| ==> tables[x] != p
  {
    var all := tables + [p];
    assert all[|tables|] == p;
    assert forall x :: 0 <= x < |tables| ==> all[x] == tables[x];
  }

  /** Writes entry i of the directory. */
  method EnterWord(k: Kernel, ghost dirPage: nat, dir: nat, ghost tables: seq<nat>, i: nat, w: uint32, ghost low: nat)
    requires Built(k, dirPage, tables, i, low) && i < NO_ENTRIES && dir == PageAddress(dirPage)
    modifies k.ram
    ensures k.Valid() && k.Tags() == old(k.Tags())
    ensures WordsAt(k.ram, dir) == old(WordsAt(k.ram, dir))[i := w]
    ensures SlicesBuilt(k.ram, tables, low) && WroteOnly(k.ram, [dirPage])
  {
    StoreWord(k.ram, dir, i, w);
    k.TagsUnwritten();
    SlicesKept(k.ram, tables, low, dirPage);
    OnlyPage(k.ram, dirPage);
  }

  twostate lemma OnlyPage(ram: array<byte>, new p: nat)
    requires WrotePage(ram, p)
    ensures WroteOnly(ram, [p])
  {
    forall a | 0 <= a < ram.Length && !InTagTable(a) && !InPages(a, [p]) ensures ram[a] == old(ram[a]) {
      InPagesOne(a, p);
    }
  }

  /** Enters no table: the i-th entry of the directory is zero. */
  method EnterNone(k: Kernel, ghost dirPage: nat, dir: nat, ghost tables: seq<nat>, i: nat, ghost low: nat)
    requires Built(k, dirPage, tables, i, low) && i < NO_ENTRIES && dir == PageAddress(dirPage)
    modifies k.ram
    ensures Built(k, dirPage, tables, i + 1, low) && k.Tags() == old(k.Tags()) && WroteOnly(k.ram, [dirPage])
  {
    EnterWord(k, dirPage, dir, tables, i, 0, low);
  }

  lemma DirExtended(w: Words, tables: seq<nat>, i: nat, low: nat, p: nat, word: uint32)
    requires DirBuilt(w, tables, i, low) && |tables| == i < NO_ENTRIES && word == PageAddress(p) + low
    ensures DirBuilt(w[i := word], tables + [p], i + 1, low)
  {
  }

  lemma SlicesExtended(ram: array<byte>, tables: seq<nat>, low: nat, p: nat)
    requires ram.Length == KHEAP_END && SlicesBuilt(ram, tables, low)
    requires p < PAGES && MapsSlice(WordsAt(ram, PageAddress(p)), |tables|, low)
    ensures SlicesBuilt(ram, tables + [p], low)
  {
    var all := tables + [p];
    forall x | 0 <= x < |all| ensures all[x] < PAGES && MapsSlice(WordsAt(ram, PageAddress(all[x])), x, low) {
      if x < |tables| { assert all[x] == tables[x]; }
    }
  }

  /** Fills page p as the i-th table; the directory and the tables before it stay. */
  method FillPage(k: Kernel, ghost dirPage: nat, dir: nat, ghost tables: seq<nat>, ghost p: nat, i: nat,
                  indexVal: uint32,
                  offset: uint32, flags: uint32)
      returns (next: uint32)
    requires k.Valid() && SlicesBuilt(k.ram, tables, LowBits(flags)) && |tables| == i < NO_ENTRIES
    requires offset == i * TABLE_SPAN
    requires p < PAGES && dirPage < PAGES && p != dirPage && dir == PageAddress(dirPage) && indexVal == PageAddress(p)
    requires forall x :: 0 <= x < |tables| ==> tables[x] != p
    modifies k.ram
    ensures k.Valid() && k.Tags() == old(k.Tags())
    ensures WordsAt(k.ram, dir) == old(WordsAt(k.ram, dir))
    ensures SlicesBuilt(k.ram, tables + [p], LowBits(flags)) && WroteOnly(k.ram, [p])
    ensures next == (i + 1) * TABLE_SPAN % TWO_32
  {
    next := FillTable(k.ram, indexVal, i, offset, flags);
    k.TagsUnwritten();
    WordsUnwritten(k.ram, dir);
    SlicesKept(k.ram, tables, LowBits(flags), p);
    SlicesExtended(k.ram, tables, LowBits(flags), p);
    OnlyPage(k.ram, p);
  }

  /** Enters page p as the i-th table and fills it. */
  method EnterTable(k: Kernel, ghost dirPage: nat, dir: nat, ghost tables: seq<nat>, ghost p: nat, i: nat,
                    indexVal: uint32,
                    offset: uint32, flags: uint32)
      returns (next: uint32)
    requires Built(k, dirPage, tables, i, LowBits(flags)) && i < NO_ENTRIES && dir == PageAddress(dirPage)
    requires |tables| == i && offset == i * TABLE_SPAN
    requires Owned(k.Tags(), dirPage, tables + [p]) && indexVal == PageAddress(p)
    modifies k.ram
    ensures Built(k, dirPage, tables + [p], i + 1, LowBits(flags))
    ensures next == (i + 1) * TABLE_SPAN % TWO_32
    ensures k.Tags() == old(k.Tags()) && WroteOnly(k.ram, [dirPage] + [p])
  {
    ghost var low := LowBits(flags);
    OwnedApart(k.Tags(), dirPage, tables, p);
    var frame := PageFrame(indexVal);
    var word := TableWord(frame, flags);
    EnterWord(k, dirPage, dir, tables, i, word, low);
    next := FillPage(k, dirPage, dir, tables, p, i, indexVal, offset, flags);
    DirExtended(old(WordsAt(k.ram, dir)), tables, i, low, p, word);
    forall a | 0 <= a < k.ram.Length && !InTagTable(a) && !InPages(a, [dirPage] + [p])
      ensures k.ram[a] == old(k.ram[a])
    {
      InPagesSplit(a, [dirPage], [p]);
    }
  }

  /** Asks for one cleared page. Apart from the tags, no other page is written. */
  method TakePage(k: Kernel) returns (page: uint32, ghost p: nat)
    requires k.Valid()
    modifies k.ram
    ensures k.Valid() && (k.Tags(), if p < PAGES then Some(p) else None) == Place(old(k.Tags()), 1)
    ensures page == AddressOf(if p < PAGES then Some(p) else None)
    ensures WrotePage(k.ram, p)
  {
    ghost var at := Place(k.Tags(), 1).1;
    assert PageHeap.BlockCount(NO_ENTRIES * 4) == 1;
    page := k.Kzalloc(NO_ENTRIES * 4);
    p := if at.Some? then at.value else PAGES;
  }

  /** Asks for one cleared page, as a list of at most one. */
  method TakeOne(k: Kernel) returns (page: uint32, ghost added: seq<nat>)
    requires k.Valid()
    modifies k.ram
    ensures k.Valid() && Took(old(k.Tags()), k.Tags(), added) && WroteOnly(k.ram, added)
    ensures |added| == (if 0 < old(FreeCount(k.Tags())) then 1 else 0)
    ensures FreeCount(k.Tags()) == old(FreeCount(k.Tags())) - |added|
    ensures page == (if added == [] then NULL else PageAddress(added[0]))
    ensures (page == NULL <==> added == []) && page % PAGE_BLOCK_SIZE == 0
  {
    PlaceSingle(k.Tags());
    ghost var p;
    page, p := TakePage(k);
    added := if p < PAGES then [p] else [];
    assert p < PAGES ==> added[0] == p;
  }

  lemma OwnedTook(t0: Table, t: Table, dirPage: nat, tables: seq<nat>, added: seq<nat>)
    requires Owned(t0, dirPage, tables) && Took(t0, t, added)
    ensures Owned(t, dirPage, tables + added)
    ensures forall x :: 0 <= x < |added| ==> added[x] < PAGES && added[x] != dirPage
    ensures forall x, y :: 0 <= x < |added| && 0 <= y < |tables| ==> added[x] != tables[y]
  {
    var all := tables + added;
    forall x, y | 0 <= x < |added| && 0 <= y < |tables| ensures added[x] != tables[y] {
      assert t0[added[x]] == FREE;
    }
    forall x | 0 <= x < |all| ensures all[x] < PAGES && all[x] != dirPage && t[all[x]] != FREE {
      if |tables| <= x { assert all[x] == added[x - |tables|]; }
    }
  }

  /** Asks for a page for a table; what was built stays. */
  method TakeTable(k: Kernel, ghost dirPage: nat, ghost tables: seq<nat>, i: nat, ghost low: nat)
      returns (page: uint32, ghost added: seq<nat>)
    requires Built(k, dirPage, tables, i, low)
    modifies k.ram
    ensures Built(k, dirPage, tables, i, low) && Owned(k.Tags(), dirPage, tables + added)
    ensures Took(old(k.Tags()), k.Tags(), added) && WroteOnly(k.ram, added)
    ensures |added| == (if 0 < old(FreeCount(k.Tags())) then 1 else 0)
    ensures FreeCount(k.Tags()) == old(FreeCount(k.Tags())) - |added|
    ensures page == (if added == [] then NULL else PageAddress(added[0]))
    ensures (page == NULL <==> added == []) && page % PAGE_BLOCK_SIZE == 0
  {
    ghost var t0 := k.Tags();
    page, added := TakeOne(k);
    OwnedTook(t0, k.Tags(), dirPage, tables, added);
    ghost var p := if added == [] then PAGES else added[0];
    OnlyOne(k.ram, added, p);
    WordsUnwritten(k.ram, PageAddress(dirPage));
    SlicesKept(k.ram, tables, low, p);
  }

  twostate lemma OnlyOne(ram: array<byte>, new added: seq<nat>, new p: nat)
    requires ram.Length == KHEAP_END && WroteOnly(ram, added)
    requires added == if p < PAGES then [p] else []
    ensures WrotePage(ram, p)
  {
    forall a | 0 <= a < ram.Length && !InTagTable(a) && !(PageAddress(p) <= a < PageAddress(p + 1))
      ensures ram[a] == old(ram[a])
    {
      assert !InPages(a, added);
    }
  }

  /** One round of the outer loop: a page table for the i-th 4 MiB, or a zero entry if no page is left. */
  method AddTable(k: Kernel, ghost dirPage: nat, dir: nat, ghost tables: seq<nat>, i: nat, offset: uint32,
                  flags: uint32)
      returns (next: uint32, ghost added: seq<nat>)
    requires Built(k, dirPage, tables, i, LowBits(flags)) && i < NO_ENTRIES && dir == PageAddress(dirPage)
    requires 0 < FreeCount(k.Tags()) ==> |tables| == i && offset == i * TABLE_SPAN
    modifies k.ram
    ensures Built(k, dirPage, tables + added, i + 1, LowBits(flags))
    ensures Took(old(k.Tags()), k.Tags(), added) && WroteOnly(k.ram, [dirPage] + added)
    ensures |added| == (if 0 < old(FreeCount(k.Tags())) then 1 else 0)
    ensures FreeCount(k.Tags()) == old(FreeCount(k.Tags())) - |added|
    ensures 0 < old(FreeCount(k.Tags())) ==> next == (i + 1) * TABLE_SPAN % TWO_32
  {
    var indexVal;
    indexVal, added := TakeTable(k, dirPage, tables, i, LowBits(flags));
    WroteMore(k.ram, added, [dirPage] + added);
    next := EnterAdded(k, dirPage, dir, tables, added, i, indexVal, offset, flags);
  }

  /** Enters the page that was taken, if one was. */
  method EnterAdded(k: Kernel, ghost dirPage: nat, dir: nat, ghost tables: seq<nat>, ghost added: seq<nat>, i: nat,
                    indexVal: uint32, offset: uint32, flags: uint32)
      returns (next: uint32)
    requires Built(k, dirPage, tables, i, LowBits(flags)) && i < NO_ENTRIES && dir == PageAddress(dirPage)
    requires Owned(k.Tags(), dirPage, tables + added) && |added| <= 1
    requires added != [] ==> |tables| == i && offset == i * TABLE_SPAN && indexVal == PageAddress(added[0])
    requires (indexVal == NULL <==> added == []) && indexVal % PAGE_BLOCK_SIZE == 0
    modifies k.ram
    ensures Built(k, dirPage, tables + added, i + 1, LowBits(flags)) && k.Tags() == old(k.Tags())
    ensures WroteOnly(k.ram, [dirPage] + added)
    ensures added != [] ==> next == (i + 1) * TABLE_SPAN % TWO_32
  {
    next := offset;
    var rest := PageOffset(indexVal);
    if indexVal == NULL || rest != 0 {
      EnterNone(k, dirPage, dir, tables, i, LowBits(flags));
      assert tables + [] == tables && [dirPage] + [] == [dirPage];
    } else {
      assert [added[0]] == added;
      next := EnterTable(k, dirPage, dir, tables, added[0], i, indexVal, offset, flags);
    }
  }

  // ----- The address space

  /** A directory whose present entries name distinct page tables in memory, none of them the directory. */
  ghost predicate ProperDirectory(w: Words, dir: nat, size: nat) {
    && 0 < dir && dir % PAGE_BLOCK_SIZE == 0 && dir + PAGE_BLOCK_SIZE <= size
    && (forall x :: 0 <= x < NO_ENTRIES && Present(w[x]) ==>
          0 < Frame(w[x]) != dir && Frame(w[x]) + PAGE_BLOCK_SIZE <= size)
    && (forall x :: 0 <= x < NO_ENTRIES && !Present(w[x]) ==> w[x] == 0)
    && (forall x, y :: 0 <= x < y < NO_ENTRIES && Present(w[x]) && Present(w[y]) ==> Frame(w[x]) != Frame(w[y]))
  }

  ghost predicate AddressSpace(ram: array<byte>, dir: nat)
    reads ram
  {
    HasTable(ram, dir) && ProperDirectory(WordsAt(ram, dir), dir, ram.Length)
  }

  /** The first n slices of 4 MiB are mapped to themselves, writable; no other address is mapped. */
  ghost predicate IdentityUpTo(ram: array<byte>, dir: nat, n: nat)
    requires HasTable(ram, dir)
    reads ram
  {
    forall va: uint32 :: Walk(ram, dir, va) == if DirIndex(va) < n then Some(Mapping(va, true)) else None
  }

  lemma BuiltEntries(w: Words, tables: seq<nat>, low: nat, x: nat)
    requires DirBuilt(w, tables, NO_ENTRIES, low) && x < NO_ENTRIES && low < PAGE_BLOCK_SIZE && low % 4 == 3
    requires forall y :: 0 <= y < |tables| ==> tables[y] < PAGES
    ensures Present(w[x]) <==> x < |tables|
    ensures x < |tables| ==> Frame(w[x]) == PageAddress(tables[x]) && Writable(w[x])
    ensures |tables| <= x ==> w[x] == 0
  {
    if x < |tables| { WordParts(PageAddress(tables[x]), low); }
  }

  lemma BuiltDirectory(tags: Table, dirPage: nat, w: Words, tables: seq<nat>, low: nat)
    requires Owned(tags, dirPage, tables) && low < PAGE_BLOCK_SIZE && low % 4 == 3
    requires DirBuilt(w, tables, NO_ENTRIES, low)
    ensures ProperDirectory(w, PageAddress(dirPage), KHEAP_END)
  {
    forall x | 0 <= x < NO_ENTRIES
      ensures Present(w[x]) <==> x < |tables|
      ensures x < |tables| ==> Frame(w[x]) == PageAddress(tables[x])
      ensures |tables| <= x ==> w[x] == 0
    {
      BuiltEntries(w, tables, low, x);
    }
  }

  lemma SliceTranslates(pde: uint32, t: Words, low: nat, va: uint32)
    requires MapsSlice(t, DirIndex(va), low) && low < PAGE_BLOCK_SIZE && low % 4 == 3 && Writable(pde)
    ensures Translate(pde, t[PageIndex(va)], va) == Some(Mapping(va, true))
  {
    var base := DirIndex(va) * TABLE_SPAN + PageIndex(va) * PAGE_BLOCK_SIZE;
    WordParts(base, low);
    SplitAddress(va);
  }

  lemma BuiltWalk(ram: array<byte>, dir: nat, tables: seq<nat>, low: nat, va: uint32)
    requires ram.Length == KHEAP_END && HasTable(ram, dir) && low < PAGE_BLOCK_SIZE && low % 4 == 3
    requires DirBuilt(WordsAt(ram, dir), tables, NO_ENTRIES, low) && SlicesBuilt(ram, tables, low)
    ensures Walk(ram, dir, va) == if DirIndex(va) < |tables| then Some(Mapping(va, true)) else None
  {
    var w, x := WordsAt(ram, dir), DirIndex(va);
    BuiltEntries(w, tables, low, x);
    if x < |tables| {
      SliceTranslates(w[x], WordsAt(ram, PageAddress(tables[x])), low, va);
    }
  }

  /** The directory is the first of the pages, and every table that it names is another of them. */
  ghost predicate SpaceIn(ram: array<byte>, dir: nat, pages: seq<nat>)
    reads ram
  {
    && HasTable(ram, dir) && pages != [] && dir == PageAddress(pages[0])
    && (forall x :: 0 <= x < |pages| ==> pages[x] < PAGES)
    && forall x :: 0 <= x < NO_ENTRIES && Present(WordsAt(ram, dir)[x]) ==>
         1 <= TableOf(x) < |pages| && Frame(WordsAt(ram, dir)[x]) == PageAddress(pages[TableOf(x)])
  }

  /** The list position of the page with the x-th table. */
  function TableOf(x: nat): nat {
    x + 1
  }

  /**
   Without a free page the result is null and nothing changes. Otherwise min(1025, free) pages become single-page
   extents, and no other tag and no other page changes. An address is mapped to itself, writable, if there was a page
   for its table; else it is not mapped at all.
   */
  method Create32DirTable(k: Kernel, flags: uint32) returns (dir: uint32, ghost pages: seq<nat>)
    requires k.Valid()
    modifies k.ram
    ensures k.Valid() && Took(old(k.Tags()), k.Tags(), pages) && WroteOnly(k.ram, pages)
    ensures |pages| == Min(NO_ENTRIES + 1, old(FreeCount(k.Tags())))
    ensures FreeCount(k.Tags()) == old(FreeCount(k.Tags())) - |pages|
    ensures dir == NULL <==> pages == []
    ensures dir != NULL ==>
              AddressSpace(k.ram, dir) && SpaceIn(k.ram, dir, pages) && IdentityUpTo(k.ram, dir, |pages| - 1)
  {
    var rtn;
    dir := NULL;
    rtn, pages := TakeOne(k);
    var rest := PageOffset(rtn);
    if rtn == NULL || rest != 0 {
      return;
    }
    ghost var dirPage, taken := pages[0], k.Tags();
    assert pages == [dirPage];
    ghost var tables := BuildSpace(k, dirPage, rtn, flags);
    TookMore(old(k.Tags()), taken, k.Tags(), pages, tables);
    forall a | 0 <= a < k.ram.Length && !InTagTable(a) && !InPages(a, [dirPage] + tables)
      ensures k.ram[a] == old(k.ram[a])
    {
      InPagesSplit(a, [dirPage], tables);
    }
    pages := [dirPage] + tables;
    dir := rtn;
  }

  /** The second part: the tables, and the address space that they make. */
  method BuildSpace(k: Kernel, ghost dirPage: nat, dir: nat, flags: uint32) returns (ghost tables: seq<nat>)
    requires k.Valid() && dirPage < PAGES && k.Tags()[dirPage] != FREE && dir == PageAddress(dirPage)
    modifies k.ram
    ensures k.Valid() && Took(old(k.Tags()), k.Tags(), tables) && WroteOnly(k.ram, [dirPage] + tables)
    ensures |tables| == Min(NO_ENTRIES, old(FreeCount(k.Tags())))
    ensures FreeCount(k.Tags()) == old(FreeCount(k.Tags())) - |tables|
    ensures AddressSpace(k.ram, dir) && SpaceIn(k.ram, dir, [dirPage] + tables)
    ensures IdentityUpTo(k.ram, dir, |tables|)
  {
    tables := BuildTables(k, dirPage, dir, flags);
    BuiltSpace(k, dir, dirPage, tables, LowBits(flags));
  }

  lemma BuiltSpace(k: Kernel, dir: nat, dirPage: nat, tables: seq<nat>, low: nat)
    requires Built(k, dirPage, tables, NO_ENTRIES, low) && dir == PageAddress(dirPage)
    requires low < PAGE_BLOCK_SIZE && low % 4 == 3
    ensures AddressSpace(k.ram, dir) && SpaceIn(k.ram, dir, [dirPage] + tables)
    ensures IdentityUpTo(k.ram, dir, |tables|)
  {
    BuiltDirectory(k.Tags(), dirPage, WordsAt(k.ram, dir), tables, low);
    forall x | 0 <= x < NO_ENTRIES && Present(WordsAt(k.ram, dir)[x])
      ensures 1 <= TableOf(x) < |[dirPage] + tables|
      ensures Frame(WordsAt(k.ram, dir)[x]) == PageAddress(([dirPage] + tables)[TableOf(x)])
    {
      BuiltEntries(WordsAt(k.ram, dir), tables, low, x);
    }
    forall va: uint32
      ensures Walk(k.ram, dir, va) == if DirIndex(va) < |tables| then Some(Mapping(va, true)) else None
    {
      BuiltWalk(k.ram, dir, tables, low, va);
    }
  }

  lemma SpanWraps(i: nat)
    requires i <= NO_ENTRIES
    ensures i * TABLE_SPAN % TWO_32 == if i < NO_ENTRIES then i * TABLE_SPAN else 0
  {
  }

  /** The outer loop over the 1024 directory entries. */
  method BuildTables(k: Kernel, ghost dirPage: nat, dir: nat, flags: uint32) returns (ghost tables: seq<nat>)
    requires k.Valid() && dirPage < PAGES && k.Tags()[dirPage] != FREE && dir == PageAddress(dirPage)
    modifies k.ram
    ensures Built(k, dirPage, tables, NO_ENTRIES, LowBits(flags))
    ensures Took(old(k.Tags()), k.Tags(), tables) && WroteOnly(k.ram, [dirPage] + tables)
    ensures |tables| == Min(NO_ENTRIES, old(FreeCount(k.Tags())))
    ensures FreeCount(k.Tags()) == old(FreeCount(k.Tags())) - |tables|
  {
    ghost var free := FreeCount(k.Tags());
    tables := [];
    var offset: uint32 := 0;
    var i := 0;
    while i < NO_ENTRIES
      invariant i <= NO_ENTRIES && Built(k, dirPage, tables, i, LowBits(flags))
      invariant Took(old(k.Tags()), k.Tags(), tables) && WroteOnly(k.ram, [dirPage] + tables)
      invariant FreeCount(k.Tags()) == free - |tables|
      invariant 0 < FreeCount(k.Tags()) ==> |tables| == i && (i < NO_ENTRIES ==> offset == i * TABLE_SPAN)
    {
      ghost var t1, added := k.Tags(), [];
      offset, added := AddTable(k, dirPage, dir, tables, i, offset, flags);
      TookMore(old(k.Tags()), t1, k.Tags(), tables, added);
      forall a | 0 <= a < k.ram.Length && !InTagTable(a) && !InPages(a, [dirPage] + (tables + added))
        ensures k.ram[a] == old(k.ram[a])
      {
        OutsideBoth(a, dirPage, tables, added);
      }
      SpanWraps(i + 1);
      tables := tables + added;
      i := i + 1;
    }
  }

  /** On a heap where nothing is allocated all 1025 requests succeed: the identity map of the whole 4 GiB. */
  method CreateOnFreshHeap(k: Kernel, flags: uint32) returns (dir: uint32, ghost pages: seq<nat>)
    requires k.Valid() && k.Tags() == AllFree(PAGES)
    modifies k.ram
    ensures k.Valid() && dir != NULL && AddressSpace(k.ram, dir) && SpaceIn(k.ram, dir, pages)
    ensures |pages| == NO_ENTRIES + 1 && Took(AllFree(PAGES), k.Tags(), pages) && WroteOnly(k.ram, pages)
    ensures FreeCount(k.Tags()) == PAGES - |pages|
    ensures forall va: uint32 :: Walk(k.ram, dir, va) == Some(Mapping(va, true))
  {
    FreeCountConstant(k.Tags(), true);
    dir, pages := Create32DirTable(k, flags);
  }

  // ----- set_page_table_enrty

  lemma FrameAligned(e: uint32)
    ensures Frame(e) % PAGE_BLOCK_SIZE == 0
  {
  }

  lemma AlignedApart(a: nat, b: nat)
    requires a % PAGE_BLOCK_SIZE == 0 && b % PAGE_BLOCK_SIZE == 0 && a != b
    ensures a + PAGE_BLOCK_SIZE <= b || b + PAGE_BLOCK_SIZE <= a
  {
  }

  lemma SamePage(a: uint32, b: uint32)
    ensures a / PAGE_BLOCK_SIZE == b / PAGE_BLOCK_SIZE <==> DirIndex(a) == DirIndex(b) && PageIndex(a) == PageIndex(b)
  {
    SplitAddress(a);
    SplitAddress(b);
  }

  function OrWords(a: uint32, b: uint32): uint32 {
    OrWord(a, b);
    BitOr(a, b)
  }

  /** The frames of present entries, and where the entry of an absent one points, are apart from the directory. */
  lemma FramesApart(w: Words, dir: nat, size: nat, x: nat, y: nat)
    requires ProperDirectory(w, dir, size) && x < NO_ENTRIES && y < NO_ENTRIES
    ensures Frame(w[x]) + PAGE_BLOCK_SIZE <= dir || dir + PAGE_BLOCK_SIZE <= Frame(w[x])
    ensures x != y && Present(w[y]) ==>
              Frame(w[x]) + PAGE_BLOCK_SIZE <= Frame(w[y]) || Frame(w[y]) + PAGE_BLOCK_SIZE <= Frame(w[x])
  {
    FrameAligned(w[x]);
    FrameAligned(w[y]);
    AlignedApart(Frame(w[x]), dir);
    if x != y && Present(w[y]) {
      if Present(w[x]) {
        assert if x < y then Frame(w[x]) != Frame(w[y]) else Frame(w[y]) != Frame(w[x]);
      } else {
        assert w[x] == 0;
      }
      AlignedApart(Frame(w[x]), Frame(w[y]));
    }
  }

  /** Where the code puts the entry of an address: in the frame that the directory word names, present or not. */
  ghost function EntryAddress(ram: array<byte>, dir: nat, va: uint32): nat
    requires HasTable(ram, dir)
    reads ram
  {
    Frame(WordsAt(ram, dir)[DirIndex(va)]) + 4 * PageIndex(va)
  }

  predicate InEntry(entry: nat, b: int) {
    entry <= b < entry + 4
  }

  /** What one store into the table of directory entry d changes: the walks that end at entry p of that table. */
  twostate lemma WalkAfterStore(ram: array<byte>, new dir: nat, new d: nat, new p: nat, new word: uint32, new a: uint32)
    requires old(AddressSpace(ram, dir)) && d < NO_ENTRIES && p < NO_ENTRIES
    requires var table := Frame(old(WordsAt(ram, dir))[d]);
      && HasTable(ram, table)
      && WordsAt(ram, table) == old(WordsAt(ram, table))[p := word]
      && forall b :: 0 <= b < ram.Length && !(table <= b < table + PAGE_BLOCK_SIZE) ==> ram[b] == old(ram[b])
    ensures WordsAt(ram, dir) == old(WordsAt(ram, dir))
    ensures var pde := old(WordsAt(ram, dir))[d];
      Walk(ram, dir, a)
      == if Present(pde) && DirIndex(a) == d && PageIndex(a) == p then Translate(pde, word, a)
         else old(Walk(ram, dir, a))
  {
    var w := old(WordsAt(ram, dir));
    var x := DirIndex(a);
    FramesApart(w, dir, ram.Length, d, x);
    WordsUnwritten(ram, dir);
    if Present(w[x]) && x != d {
      WordsUnwritten(ram, Frame(w[x]));
    }
  }

  /**
   In a proper directory an aligned address whose 4 MiB slice has a table gets the entry `setVal | flags`: exactly
   the walks of that 4 KiB page change. Without a table the call changes no walk, yet it reports success, and the word
   it overwrites is that of physical page 0. In both cases no other byte changes.
   */
  method SetPageTableEntry(ram: array<byte>, dir: nat, va: uint32, setVal: uint32, flags: uint32) returns (code: int)
    requires AddressSpace(ram, dir)
    modifies ram
    ensures AddressSpace(ram, dir)
    ensures code == if va % PAGE_BLOCK_SIZE == 0 then 0 else -GEN32_INVARG
    ensures code != 0 ==> forall b :: 0 <= b < ram.Length ==> ram[b] == old(ram[b])
    ensures code == 0 ==> forall a: uint32 ::
              Walk(ram, dir, a)
              == (var pde := old(WordsAt(ram, dir))[DirIndex(va)];
                  if Present(pde) && a / PAGE_BLOCK_SIZE == va / PAGE_BLOCK_SIZE
                  then Translate(pde, OrWords(setVal, flags), a)
                  else old(Walk(ram, dir, a)))
    ensures code == 0 ==> forall b :: 0 <= b < ram.Length && !InEntry(old(EntryAddress(ram, dir, va)), b) ==>
              ram[b] == old(ram[b])
    ensures !Present(old(WordsAt(ram, dir))[DirIndex(va)]) ==> old(EntryAddress(ram, dir, va)) == 4 * PageIndex(va)
  {
    var dirIndex, pageIndex;
    code, dirIndex, pageIndex := GetIndexFromVirt(va);
    if code != 0 {
      return -GEN32_INVARG;
    }
    SetEntry(ram, dir, va, dirIndex, pageIndex, OrWords(setVal, flags));
    code := 0;
  }

  method SetEntry(ram: array<byte>, dir: nat, ghost va: uint32, dirIndex: nat, pageIndex: nat, word: uint32)
    requires AddressSpace(ram, dir) && dirIndex == DirIndex(va) && pageIndex == PageIndex(va)
    modifies ram
    ensures AddressSpace(ram, dir)
    ensures forall a: uint32 ::
              Walk(ram, dir, a)
              == (var pde := old(WordsAt(ram, dir))[DirIndex(va)];
                  if Present(pde) && a / PAGE_BLOCK_SIZE == va / PAGE_BLOCK_SIZE then Translate(pde, word, a)
                  else old(Walk(ram, dir, a)))
    ensures forall b :: 0 <= b < ram.Length && !InEntry(old(EntryAddress(ram, dir, va)), b) ==> ram[b] == old(ram[b])
  {
    ghost var w := WordsAt(ram, dir);
    var pde := Load32(ram, dir + 4 * dirIndex);
    assert pde == w[dirIndex];
    FramesApart(w, dir, ram.Length, dirIndex, dirIndex);
    var table := PageFrame(pde);
    StoreWord(ram, table, pageIndex, word);
    WordsUnwritten(ram, dir);
    forall a: uint32 ensures Walk(ram, dir, a)
      == if Present(pde) && a / PAGE_BLOCK_SIZE == va / PAGE_BLOCK_SIZE then Translate(pde, word, a)
         else old(Walk(ram, dir, a))
    {
      WalkAfterStore(ram, dir, dirIndex, pageIndex, word, a);
      SamePage(a, va);
    }
  }

  /** The word written, bit by bit. */
  lemma OrWordsBits(a: uint32, b: uint32, k: nat)
    ensures Bit(OrWords(a, b), k) == if Bit(a, k) == 1 || Bit(b, k) == 1 then 1 else 0
  {
    OrBits(a, b, k);
  }

  /** It maps the page if either of the two sets the present bit, and unmaps it if neither does. */
  lemma EntryPresent(pde: uint32, setVal: uint32, flags: uint32, a: uint32)
    ensures Present(OrWords(setVal, flags)) <==> Present(setVal) || Present(flags)
    ensures Writable(OrWords(setVal, flags)) <==> Writable(setVal) || Writable(flags)
    ensures Translate(pde, OrWords(setVal, flags), a).Some? <==> Present(setVal) || Present(flags)
  {
    OrWordsBits(setVal, flags, 0);
    OrWordsBits(setVal, flags, 1);
    FlagBits(setVal);
    FlagBits(flags);
    FlagBits(OrWords(setVal, flags));
  }

  lemma FlagBits(e: uint32)
    ensures (Present(e) <==> Bit(e, 0) == 1) && (Writable(e) <==> Bit(e, 1) == 1)
  {
    assert Bit(e, 1) == Bit(e / 2, 0);
  }

  /** The frame it maps to has the bits from 12 on of either. */
  lemma EntryFrame(setVal: uint32, flags: uint32, k: nat)
    ensures Frame(OrWords(setVal, flags)) % PAGE_BLOCK_SIZE == 0
    ensures Bit(Frame(OrWords(setVal, flags)), k)
         == if 12 <= k && (Bit(setVal, k) == 1 || Bit(flags, k) == 1) then 1 else 0
  {
    var w := OrWords(setVal, flags);
    OrWordsBits(setVal, flags, k);
    FrameBits(w, k);
    FrameAligned(w);
  }

  lemma FrameBits(e: uint32, k: nat)
    ensures Bit(Frame(e), k) == if k < 12 then 0 else Bit(e, k)
  {
    FrameAligned(e);
    Powers();
    var low := e % PAGE_BLOCK_SIZE;
    OrAdds(Frame(e), low, 12, 4096);
    OrBits(Frame(e), low, k);
    BitsOfRemainder(e, 12, 4096, k);
    BitsOfRemainder(Frame(e), 12, 4096, k);
    ZeroBits(k);
  }

  /**
   With an aligned frame and flags below 0x1000 that include the present bit, that entry maps the page to the frame.
   */
  lemma EntryMaps(pde: uint32, setVal: uint32, flags: uint32, a: uint32)
    requires setVal % PAGE_BLOCK_SIZE == 0 && flags < PAGE_BLOCK_SIZE && Present(flags)
    ensures OrWords(setVal, flags) == setVal + flags
    ensures Translate(pde, setVal + flags, a)
         == Some(Mapping(setVal + a % PAGE_BLOCK_SIZE, Writable(pde) && Writable(flags)))
  {
    PageOr1(setVal, flags);
    FramePart(setVal, flags);
    EvenBase(setVal, flags);
  }

  lemma EvenBase(base: nat, low: nat)
    requires base % PAGE_BLOCK_SIZE == 0
    ensures (base + low) % 2 == low % 2 && (base + low) / 2 % 2 == low / 2 % 2
  {
    var q := base / PAGE_BLOCK_SIZE;
    assert base == 2 * (2 * (1024 * q));
    EvenAbove(1024 * q, low);
  }

  lemma EvenAbove(q: nat, low: nat)
    ensures (2 * (2 * q) + low) % 2 == low % 2 && (2 * (2 * q) + low) / 2 == 2 * q + low / 2
    ensures (2 * q + low / 2) % 2 == low / 2 % 2
  {
  }

  // ----- What others do to the memory

  /** A walk reads nothing but the pages of the address space. */
  twostate lemma WalkKept(ram: array<byte>, new dir: nat, new pages: seq<nat>)
    requires ram.Length == KHEAP_END && old(SpaceIn(ram, dir, pages))
    requires forall x, a :: 0 <= x < |pages| && InPage(a, pages[x]) ==> ram[a] == old(ram[a])
    ensures SpaceIn(ram, dir, pages)
    ensures forall va: uint32 :: Walk(ram, dir, va) == old(Walk(ram, dir, va))
  {
    PageUnwritten(ram, pages[0]);
    forall va: uint32 ensures Walk(ram, dir, va) == old(Walk(ram, dir, va)) {
      var x := DirIndex(va);
      if Present(WordsAt(ram, dir)[x]) {
        PageUnwritten(ram, pages[TableOf(x)]);
      }
    }
  }

  twostate lemma PageUnwritten(ram: array<byte>, new p: nat)
    requires ram.Length == KHEAP_END && p < PAGES
    requires forall a :: InPage(a, p) ==> ram[a] == old(ram[a])
    ensures HasTable(ram, PageAddress(p)) && WordsAt(ram, PageAddress(p)) == old(WordsAt(ram, PageAddress(p)))
  {
    forall a | PageAddress(p) <= a < PageAddress(p) + PAGE_BLOCK_SIZE ensures ram[a] == old(ram[a]) {
      assert InPage(a, p);
    }
    WordsUnwritten(ram, PageAddress(p));
  }

  // ----- An entry without a table

  /**
   A heap of which kmalloc has given away all pages but one. The directory gets that page and no table is left, but
   setting an entry reports success; no address is mapped, and the word written is at the index of the page times 4.
   */
  method EntryWithoutTable() returns (code: int, ram: array<byte>, dir: uint32)
    ensures code == 0 && HasTable(ram, dir)
    ensures forall va: uint32 :: Walk(ram, dir, va) == None
    ensures EntryAddress(ram, dir, 0x1000) == 4
  {
    ram, dir := OnlyDirectory();
    code := SetPageTableEntry(ram, dir, 0x1000, 0x5000, 1);
  }

  method OnlyDirectory() returns (ram: array<byte>, dir: uint32)
    ensures fresh(ram) && AddressSpace(ram, dir)
    ensures forall x :: 0 <= x < NO_ENTRIES ==> WordsAt(ram, dir)[x] == 0
  {
    var k := FullHeap();
    ram := k.ram;
    ghost var pages;
    dir, pages := Create32DirTable(k, 0);
    assert forall x :: 0 <= x < NO_ENTRIES ==> !Present(WordsAt(ram, dir)[x]);
  }

  method FullHeap() returns (k: Kernel)
    ensures fresh(k) && fresh(k.ram) && k.Valid() && FreeCount(k.Tags()) == 1
  {
    var ram := new byte[KHEAP_END](_ => 0);
    k := new Kernel(ram);
    k.Init();
    LeaveOne(k);
  }

  method LeaveOne(k: Kernel)
    requires k.Valid() && k.Tags() == AllFree(PAGES)
    modifies k.ram
    ensures k.Valid() && FreeCount(k.Tags()) == 1
  {
    assert PageHeap.BlockCount((PAGES - 1) * PAGE_BLOCK_SIZE) == PAGES - 1;
    AllFreeFits(PAGES, PAGES - 1);
    var all := k.Kmalloc((PAGES - 1) * PAGE_BLOCK_SIZE);
  }

  lemma AllFreeFits(size: nat, n: nat)
    requires 0 < n <= size
    ensures Place(AllFree(size), n).1.Some? && FreeCount(Place(AllFree(size), n).0) == size - n
  {
    var t := AllFree(size);
    assert FreeRun(t, 0, n);
    FreeCountConstant(t, true);
    FreeCountPlace(t, n);
  }
}
