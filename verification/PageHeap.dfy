/** heap.c: first-fit allocation of 4 KiB pages, with one tag byte per page kept in a table elsewhere in memory. */
module PageHeap {
  import opened Bytes
  import opened TagTable

  const KHEAP_BLOCK_SIZE: nat := 4096
  const NULL: uint32 := 0
  const GEN32_INVARG: int := 2

  /** Where the tag table lies in memory and how many tags it has. */
  datatype HeapTable = HeapTable(entries: nat, total: nat)

  /** Pages needed for a request: a 32-bit sum and a shift, so the last 4095 sizes wrap to no page at all. */
  function BlockCount(size: uint32): nat {
    (size + KHEAP_BLOCK_SIZE - 1) % TWO_32 / KHEAP_BLOCK_SIZE
  }

  lemma BlockCountMeaning(size: uint32)
    ensures size <= TWO_32 - KHEAP_BLOCK_SIZE ==>
              BlockCount(size) * KHEAP_BLOCK_SIZE - KHEAP_BLOCK_SIZE < size <= BlockCount(size) * KHEAP_BLOCK_SIZE
    ensures size > TWO_32 - KHEAP_BLOCK_SIZE ==> BlockCount(size) == 0
    ensures BlockCount(size) == 0 <==> size == 0 || size > TWO_32 - KHEAP_BLOCK_SIZE
  {
  }

  /** Page address that a placement stands for. */
  function PlacedAddress(startAddr: nat, at: Option<nat>): nat {
    match at
    case None => NULL
    case Some(i) => startAddr + i * KHEAP_BLOCK_SIZE
  }

  class Heap {
    /** Physical memory, indexed by address. */
    const ram: array<byte>
    var table: Option<HeapTable>
    var startAddr: uint32
    var endAddr: uint32

    constructor (ram: array<byte>)
      ensures this.ram == ram && table == None
    {
      this.ram := ram;
      table, startAddr, endAddr := None, 0, 0;
    }

    ghost predicate Valid()
      reads this
    {
      && table.Some?
      && table.value.entries + table.value.total < ram.Length
      && startAddr % KHEAP_BLOCK_SIZE == 0
      && startAddr + table.value.total * KHEAP_BLOCK_SIZE == endAddr
    }

    ghost predicate InTable(a: int)
      requires table.Some?
      reads this
    {
      table.value.entries <= a < table.value.entries + table.value.total
    }

    ghost function Tags(): (t: Table)
      requires Valid()
      reads this, ram
      ensures |t| == table.value.total
    {
      ram[table.value.entries..table.value.entries + table.value.total]
    }

    static predicate Aligned(a: uint32) {
      a % KHEAP_BLOCK_SIZE == 0
    }

    /** The difference of two pointers, a signed 32-bit number. */
    static function Difference(start: uint32, end: uint32): int {
      var d := (end - start) % TWO_32;
      if d < 0x8000_0000 then d else d - TWO_32
    }

    /** The difference over the page size, truncated toward zero, as an unsigned 32-bit count. */
    static function PagesBetween(start: uint32, end: uint32): uint32 {
      var d := Difference(start, end);
      if 0 <= d then d / KHEAP_BLOCK_SIZE else (TWO_32 - -d / KHEAP_BLOCK_SIZE) % TWO_32
    }

    /** Below 2 GiB the count is the pages of the span; from there on it is too large by 2^32 / 4096 * 4095. */
    static lemma PagesBetweenMeaning(start: uint32, end: uint32)
      requires Aligned(start) && Aligned(end) && start <= end
      ensures end - start < 0x8000_0000 ==> start + PagesBetween(start, end) * KHEAP_BLOCK_SIZE == end
      ensures 0x8000_0000 <= end - start ==> PagesBetween(start, end) == (end - start) / KHEAP_BLOCK_SIZE + 0xFFF0_0000
    {
    }

    method Create(start: uint32, end: uint32, t: HeapTable) returns (code: int)
      requires t.entries + t.total < ram.Length
      modifies this, ram
      ensures code == 0 <==> Aligned(start) && Aligned(end) && PagesBetween(start, end) == t.total
      ensures code != 0 ==> code == -GEN32_INVARG && forall a :: 0 <= a < ram.Length ==> ram[a] == old(ram[a])
      ensures code == 0 ==> table == Some(t) && startAddr == start && endAddr == end
      ensures code == 0 && start <= end < start + 0x8000_0000 ==> Valid() && Tags() == AllFree(t.total)
      ensures forall a :: 0 <= a < ram.Length && !(t.entries <= a < t.entries + t.total) ==> ram[a] == old(ram[a])
    {
      if !Aligned(end) || !Aligned(start) {
        return -GEN32_INVARG;
      }
      table := None;
      startAddr := start;
      endAddr := end;
      if PagesBetween(startAddr, endAddr) != t.total {
        return -GEN32_INVARG;
      }
      table := Some(t);
      ClearTags(t);
      if start <= end < start + 0x8000_0000 {
        PagesBetweenMeaning(start, end);
      }
      code := 0;
    }

    /** memset of the tag table. */
    method ClearTags(t: HeapTable)
      requires t.entries + t.total < ram.Length
      modifies ram
      ensures forall i :: t.entries <= i < t.entries + t.total ==> ram[i] == FREE
      ensures forall a :: 0 <= a < ram.Length && !(t.entries <= a < t.entries + t.total) ==> ram[a] == old(ram[a])
    {
      for k := 0 to t.total
        invariant forall i :: t.entries <= i < t.entries + k ==> ram[i] == FREE
        invariant forall a :: 0 <= a < ram.Length && !(t.entries <= a < t.entries + t.total) ==> ram[a] == old(ram[a])
      {
        ram[t.entries + k] := FREE;
      }
    }

    /** The search: the inner loop advances the index of the outer one, which then skips one more entry. */
    method GetStartBlock(blockCount: nat) returns (r: Option<nat>)
      requires Valid()
      ensures r == FirstFit(Tags(), blockCount)
    {
      var entries, total := table.value.entries, table.value.total;
      ghost var t := Tags();
      var i := 0;
      while i < total
        invariant 0 <= i <= total + 1
        invariant 0 < blockCount ==> forall s :: 0 <= s < i ==> !FreeRun(t, s, blockCount)
      {
        if ram[entries + i] == FREE {
          ghost var i0 := i;
          var found := i;
          var count := 1;
          i := i + 1;
          while count < blockCount && i < total && ram[entries + i] == FREE
            invariant i0 < i <= total && count == i - i0
            invariant count <= blockCount || blockCount == 0
            invariant forall k :: i0 <= k < i ==> t[k] == FREE
          {
            count := count + 1;
            i := i + 1;
          }
          if count == blockCount {
            assert FreeRun(t, found, blockCount);
            return Some(found);
          }
          assert i < total ==> t[i] == ram[entries + i];
        } else {
          assert t[i] == ram[entries + i];
        }
        i := i + 1;
      }
      r := None;
    }

    /** Writes the tags of a run over free entries. */
    method MarkTaken(at: nat, blockCount: nat)
      requires Valid() && 0 < blockCount && at + blockCount <= table.value.total
      modifies ram
      ensures Tags() == MarkRun(old(Tags()), at, blockCount)
      ensures forall a :: 0 <= a < ram.Length && !InTable(a) ==> ram[a] == old(ram[a])
    {
      ghost var t := Tags();
      var entries := table.value.entries;
      var address := entries + at;
      if blockCount == 1 {
        ram[address] := SINGLE;
      } else {
        ram[address] := START;
        var temp := address + 1;
        while temp <= address + blockCount - 2
          invariant address + 1 <= temp <= address + blockCount - 1
          invariant ram[address] == START
          invariant forall i :: address < i < temp ==> ram[i] == MID
          invariant forall a :: 0 <= a < ram.Length && !(address <= a < temp) ==> ram[a] == old(ram[a])
        {
          ram[temp] := MID;
          temp := temp + 1;
        }
        ram[address + blockCount - 1] := END;
      }
      forall k | 0 <= k < |t| ensures Tags()[k] == TagAfter(t, at, blockCount, k) {
        assert Tags()[k] == ram[entries + k] && t[k] == old(ram[entries + k]);
      }
      assert Tags() == MarkRun(t, at, blockCount);
    }

    method Malloc(size: uint32) returns (addr: uint32)
      requires Valid()
      modifies ram
      ensures var (t, at) := Place(old(Tags()), BlockCount(size));
        Tags() == t && addr == PlacedAddress(startAddr, at)
      ensures forall a :: 0 <= a < ram.Length && !InTable(a) ==> ram[a] == old(ram[a])
    {
      var blockCount := BlockCount(size);
      var at := GetStartBlock(blockCount);
      if at == None {
        return NULL;
      }
      MarkTaken(at.value, blockCount);
      addr := startAddr + at.value * KHEAP_BLOCK_SIZE;
    }

    /** Releases the run whose first page holds `addr`; any other address in the heap changes nothing. */
    method Free(addr: uint32)
      requires Valid() && startAddr <= addr < endAddr
      modifies ram
      ensures Tags() == Release(old(Tags()), (addr - startAddr) / KHEAP_BLOCK_SIZE).0
      ensures forall a :: 0 <= a < ram.Length && !InTable(a) ==> ram[a] == old(ram[a])
    {
      ghost var t := Tags();
      var i := (addr - startAddr) / KHEAP_BLOCK_SIZE;
      var entries := table.value.entries;
      var p := entries + i;
      assert t[i] == ram[p];
      if ram[p] == SINGLE {
        ram[p] := FREE;
        assert Tags() == ClearRun(t, i, 1);
      } else if ram[p] == START {
        ClearExtent(i);
      }
    }

    /** Clears the tags from a start tag to the next end tag. */
    method ClearExtent(i: nat)
      requires Valid() && i < table.value.total && Tags()[i] == START
      modifies ram
      ensures var e := RunEnd(old(Tags()), i); Tags() == ClearRun(old(Tags()), i, Min(e + 1, |old(Tags())|) - i)
      ensures forall a :: 0 <= a < ram.Length && !InTable(a) ==> ram[a] == old(ram[a])
    {
      ghost var t, e := Tags(), RunEnd(Tags(), i);
      var entries := table.value.entries;
      var max := entries + table.value.total;
      var p := entries + i;
      while ram[p] != END && p < max
        invariant entries + i <= p <= max
        invariant p <= entries + e
        invariant forall a :: entries + i <= a < p ==> ram[a] == FREE
        invariant forall a :: 0 <= a < ram.Length && !(entries + i <= a < p) ==> ram[a] == old(ram[a])
        decreases max - p
      {
        assert t[p - entries] == ram[p];
        ram[p] := FREE;
        p := p + 1;
      }
      assert p < max ==> t[p - entries] == ram[p];
      assert p == entries + e;
      if p < max {
        ram[p] := FREE;
      }
      assert Tags() == ClearRun(t, i, Min(e + 1, |t|) - i);
    }
  }
}
