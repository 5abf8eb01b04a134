/** heap32.c: one page cut into a 124-entry tag table, four guard bytes and 124 blocks of 32 bytes. */
module Heap32 {
  import opened Bytes
  import opened TagTable

  const PAGE_BYTES: nat := 4096
  const TABLE_SIZE: nat := 124
  const DATA_OFFSET_BYTES: nat := 128
  const SIZE_OF_BLOCK_BYTE: nat := 32
  const TOTAL_BYTES_AVAIL: nat := 3968
  const GUARD: byte := 0xab
  const NULL: uint32 := 0
  const GEN32_INVARG: int := 2

  /** 32-byte blocks needed for a request; the 32-bit sum wraps for the last 31 sizes. */
  function Blocks(size: uint32): nat {
    (size + 31) % TWO_32 / SIZE_OF_BLOCK_BYTE
  }

  lemma BlocksMeaning(size: uint32)
    requires 1 <= size <= TOTAL_BYTES_AVAIL
    ensures 1 <= Blocks(size) <= TABLE_SIZE
    ensures Blocks(size) * SIZE_OF_BLOCK_BYTE - SIZE_OF_BLOCK_BYTE < size <= Blocks(size) * SIZE_OF_BLOCK_BYTE
  {
  }

  function BlockAddress(page: nat, index: nat): nat {
    page + DATA_OFFSET_BYTES + index * SIZE_OF_BLOCK_BYTE
  }

  /** The pointer that a placement in the page stands for. */
  function PlacedBlock(page: nat, at: Option<nat>): nat {
    match at
    case None => NULL
    case Some(s) => BlockAddress(page, s)
  }

  ghost predicate HasPage(ram: array<byte>, page: nat) {
    0 < page && page + PAGE_BYTES <= ram.Length && page + PAGE_BYTES <= TWO_32
  }

  ghost function TableOf(ram: array<byte>, page: nat): (t: Table)
    requires HasPage(ram, page)
    reads ram
    ensures |t| == TABLE_SIZE
  {
    ram[page..page + TABLE_SIZE]
  }

  method TableGuardSet(ram: array<byte>, page: nat)
    requires HasPage(ram, page)
    modifies ram
    ensures forall a :: page + TABLE_SIZE <= a < page + DATA_OFFSET_BYTES ==> ram[a] == 0xab
    ensures forall a :: 0 <= a < ram.Length && !(page + TABLE_SIZE <= a < page + DATA_OFFSET_BYTES) ==>
              ram[a] == old(ram[a])
  {
    ram[page + 124] := GUARD;
    ram[page + 125] := GUARD;
    ram[page + 126] := GUARD;
    ram[page + 127] := GUARD;
  }

  /** First fit; -1 if no run of that many free entries exists. The index is shared by both loops. */
  method GetIndex(ram: array<byte>, page: nat, noBlocks: nat) returns (r: int)
    requires HasPage(ram, page)
    ensures match FirstFit(TableOf(ram, page), noBlocks)
      case None => r == -1
      case Some(s) => r == s
  {
    ghost var t := TableOf(ram, page);
    var i := 0;
    r := -1;
    var target: int := noBlocks;
    while i < TABLE_SIZE
      invariant 0 <= i <= TABLE_SIZE + 1
      invariant target == noBlocks && r == -1
      invariant 0 < noBlocks ==> forall s :: 0 <= s < i ==> !FreeRun(t, s, noBlocks)
    {
      if ram[page + i] == FREE {
        r := i;
        ghost var i0 := i;
        i := i + 1;
        target := target - 1;
        while target != 0 && i < TABLE_SIZE && ram[page + i] == FREE
          invariant i0 < i <= TABLE_SIZE && target == noBlocks - (i - i0)
          invariant 0 <= target || noBlocks == 0
          invariant forall k :: i0 <= k < i ==> t[k] == FREE
          decreases TABLE_SIZE - i
        {
          i := i + 1;
          target := target - 1;
        }
        if target == 0 {
          assert FreeRun(t, r, noBlocks);
          return;
        }
        assert i < TABLE_SIZE ==> t[i] == ram[page + i];
        target := noBlocks;
        r := -1;
      } else {
        assert t[i] == ram[page + i];
      }
      i := i + 1;
    }
  }

  /** Writes the tags of a run; refuses, with a positive code, on the first entry that is not free. */
  method SetTableVal(ram: array<byte>, page: nat, index: nat, noBlocks: nat) returns (code: int)
    requires HasPage(ram, page) && 0 < noBlocks && index + noBlocks <= TABLE_SIZE
    modifies ram
    ensures code == if FreeRun(old(TableOf(ram, page)), index, noBlocks) then 0 else GEN32_INVARG
    ensures code == 0 ==> TableOf(ram, page) == MarkRun(old(TableOf(ram, page)), index, noBlocks)
    ensures forall a :: 0 <= a < ram.Length && !(page <= a < page + TABLE_SIZE) ==> ram[a] == old(ram[a])
  {
    ghost var t := TableOf(ram, page);
    var base := page + index;
    assert t[index] == ram[base];
    if noBlocks == 1 {
      if ram[base] != FREE {
        return GEN32_INVARG;
      }
      ram[base] := SINGLE;
      assert TableOf(ram, page) == MarkRun(t, index, 1);
      return 0;
    }
    if ram[base] != FREE {
      return GEN32_INVARG;
    }
    ram[base] := START;
    var i := 1;
    while i < noBlocks - 1
      invariant 1 <= i <= noBlocks - 1
      invariant ram[base] == START
      invariant forall a :: base < a < base + i ==> ram[a] == MID
      invariant forall k :: index <= k < index + i ==> t[k] == FREE
      invariant forall a :: 0 <= a < ram.Length && !(base <= a < base + i) ==> ram[a] == old(ram[a])
    {
      assert t[index + i] == ram[base + i];
      if ram[base + i] != FREE {
        return GEN32_INVARG;
      }
      ram[base + i] := MID;
      i := i + 1;
    }
    assert t[index + i] == ram[base + i];
    if ram[base + i] != FREE {
      return GEN32_INVARG;
    }
    ram[base + i] := END;
    forall k | 0 <= k < TABLE_SIZE ensures TableOf(ram, page)[k] == TagAfter(t, index, noBlocks, k) {
      assert TableOf(ram, page)[k] == ram[page + k] && t[k] == old(ram[page + k]);
    }
    assert TableOf(ram, page) == MarkRun(t, index, noBlocks);
    code := 0;
  }

  /** Allocates inside one page; the refusal code of the marking step is positive, so its test for < 0 never fires. */
  method Malloc32(ram: array<byte>, page: nat, size: uint32) returns (addr: nat)
    requires HasPage(ram, page)
    modifies ram
    ensures addr != NULL && size <= 3968 ==> page + 128 <= addr && addr + size <= page + 4096 && (addr - page) % 32 == 0
    ensures var (t, at) := Place(old(TableOf(ram, page)), Blocks(size));
      && TableOf(ram, page) == t
      && addr == PlacedBlock(page, at)
    ensures forall a :: 0 <= a < ram.Length && !(page <= a < page + TABLE_SIZE) ==> ram[a] == old(ram[a])
  {
    addr := NULL;
    var noBlocks := Blocks(size);
    var index := GetIndex(ram, page, noBlocks);
    if index < 0 {
      return;
    }
    var code := SetTableVal(ram, page, index, noBlocks);
    if code < 0 {
      return;
    }
    addr := BlockAddress(page, index);
  }

  /** The multi-block case of the release: the head at entry s, then every middle tag, then the tail. */
  method DestroyRun(ram: array<byte>, page: nat, s: nat) returns (ok: bool)
    requires HasPage(ram, page) && s < TABLE_SIZE && ram[page + s] == START
    modifies ram
    ensures WellFormed(old(TableOf(ram, page))) ==> (TableOf(ram, page), ok) == Release(old(TableOf(ram, page)), s)
    ensures WellFormed(old(TableOf(ram, page))) ==>
              forall a :: 0 <= a < ram.Length && !(page <= a < page + TABLE_SIZE) ==> ram[a] == old(ram[a])
    ensures forall a :: 0 <= a < ram.Length && !(page <= a <= page + DATA_OFFSET_BYTES) ==> ram[a] == old(ram[a])
  {
    ghost var t := TableOf(ram, page);
    ghost var e := RunEnd(t, s);
    ghost var wf := WellFormed(t);
    assert t[s] == START;
    if wf { HeadExtent(t, s); }
    var p := page + s;
    ram[p] := FREE;
    p := p + 1;
    while ram[p] != END && p - page < DATA_OFFSET_BYTES
      invariant page + s < p <= page + DATA_OFFSET_BYTES
      invariant wf ==> p <= page + e
      invariant forall a :: page + s <= a < p ==> ram[a] == FREE
      invariant forall a :: 0 <= a < ram.Length && !(page + s <= a < p) ==> ram[a] == old(ram[a])
      decreases page + DATA_OFFSET_BYTES - p
    {
      assert p - page < TABLE_SIZE ==> t[p - page] == ram[p];
      assert wf ==> t[p - page] == RunTag(e + 1 - s, p - page - s);
      if ram[p] != MID {
        return false;
      }
      ram[p] := FREE;
      p := p + 1;
    }
    assert p - page < TABLE_SIZE ==> t[p - page] == ram[p];
    assert wf ==> p == page + e;
    ram[p] := FREE;
    assert wf ==> TableOf(ram, page) == ClearRun(t, s, e + 1 - s);
    ok := true;
  }

  /**
   Frees the run whose first block is at `block`. On a well-formed table it behaves exactly as Release: neither the
   corrupted-head nor the corrupted-middle exit is taken.
   */
  method Free32(ram: array<byte>, page: nat, block: nat) returns (ok: bool)
    requires HasPage(ram, page) && block < page + PAGE_BYTES
    modifies ram
    ensures block < page + DATA_OFFSET_BYTES || (block - page - DATA_OFFSET_BYTES) % SIZE_OF_BLOCK_BYTE != 0 ==>
              !ok && TableOf(ram, page) == old(TableOf(ram, page))
    ensures page + DATA_OFFSET_BYTES <= block && (block - page - DATA_OFFSET_BYTES) % SIZE_OF_BLOCK_BYTE == 0
            && WellFormed(old(TableOf(ram, page))) ==>
              (TableOf(ram, page), ok)
              == Release(old(TableOf(ram, page)), (block - page - DATA_OFFSET_BYTES) / SIZE_OF_BLOCK_BYTE)
    ensures WellFormed(old(TableOf(ram, page))) ==>
              forall a :: 0 <= a < ram.Length && !(page <= a < page + TABLE_SIZE) ==> ram[a] == old(ram[a])
    ensures forall a :: 0 <= a < ram.Length && !(page <= a <= page + DATA_OFFSET_BYTES) ==> ram[a] == old(ram[a])
  {
    if block - page < DATA_OFFSET_BYTES {
      return false;
    }
    var index := block - page - DATA_OFFSET_BYTES;
    if index % 32 != 0 {
      return false;
    }
    ghost var t := TableOf(ram, page);
    ghost var s := index / 32;
    var p := page + index / 32;
    assert t[s] == ram[p];
    if ram[p] == GUARD {
      assert WellFormed(t) ==> Linked(t, s);
      return false;
    }
    if ram[p] == FREE {
      return false;
    }
    if ram[p] == END || ram[p] == MID {
      return false;
    }
    if ram[p] == SINGLE {
      ram[p] := FREE;
      assert TableOf(ram, page) == ClearRun(t, s, 1);
      return true;
    }
    if ram[p] != START {
      assert WellFormed(t) ==> Linked(t, s);
      return false;
    }
    ok := DestroyRun(ram, page, index / 32);
  }
}
