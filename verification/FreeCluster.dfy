/**
 get_free_cluster of fat16.c: takes the lowest free cluster, links it, and repeats the change in every copy of the
 table.
 */
module FreeCluster {
  import opened Bytes
  import opened Bpb
  import opened Disk
  import opened FatChain
  import opened FatTable

  const NO_OFFSET: nat := 0xffffffff
  const NO_SECTOR: nat := 0xffff

  function TablesOf(b: Bpb, startFat: nat): Tables {
    Tables(startFat, b.sectorsPerFat, b.fatCount)
  }

  /** The tables lie on the disk, and `cur` is an entry of them or one of the values that are not clusters. */
  ghost predicate Usable(img: Image, b: Bpb, startFat: nat, cur: uint16) {
    && OnDisk(TablesOf(b, startFat), img)
    && startFat + b.sectorsPerFat <= |img|
    && (FIRST_CLUSTER <= cur < EOC ==> cur < b.sectorsPerFat * WORDS_PER_SECTOR)
  }

  ghost predicate LowestFree(f: Fat, e: nat) {
    e < |f| && f[e] == 0 && forall k :: 0 <= k < e ==> f[k] != 0
  }

  /** Scans one loaded sector; the first zero word, if any, is set to 0xffff. */
  method TakeInSector(buf: array<byte>) returns (offset: nat)
    requires buf.Length == SECTOR_SIZE
    modifies buf
    ensures offset == NO_OFFSET || offset < WORDS_PER_SECTOR
    ensures offset == NO_OFFSET ==>
              buf[..] == old(buf[..]) && forall j :: 0 <= j < WORDS_PER_SECTOR ==> Word16(buf[..], j) != 0
    ensures offset < WORDS_PER_SECTOR ==>
              && Word16(old(buf[..]), offset) == 0
              && (forall j :: 0 <= j < offset ==> Word16(old(buf[..]), j) != 0)
              && buf[..] == SetWord16(old(buf[..]), offset, LAST)
  {
    offset := NO_OFFSET;
    var j := 0;
    while j < WORDS_PER_SECTOR
      invariant j <= WORDS_PER_SECTOR && offset == NO_OFFSET && buf[..] == old(buf[..])
      invariant forall k :: 0 <= k < j ==> Word16(buf[..], k) != 0
    {
      var w := Get16(buf, j);
      if w == 0x0000 {
        Put16(buf, j, LAST);
        offset := j;
        break;
      }
      j := j + 1;
    }
  }

  lemma EntryPlace(sector: nat, offset: nat, entry: nat)
    requires offset < WORDS_PER_SECTOR && entry == sector * WORDS_PER_SECTOR + offset
    ensures entry / WORDS_PER_SECTOR == sector && entry % WORDS_PER_SECTOR == offset
  {
  }

  /**
   The changed words of one copy: the loaded sector holds the new entry already; the predecessor may lie elsewhere.
   */
  method LinkInCopy(disk: Device, buf: array<byte>, base: nat, sector: nat, offset: nat, curSector: nat, cur: uint16,
                    taken: uint16)
    requires buf.Length == SECTOR_SIZE && sector < NO_SECTOR && offset < WORDS_PER_SECTOR
    requires taken == sector * WORDS_PER_SECTOR + offset && base + sector < |disk.sectors|
    requires curSector == if FIRST_CLUSTER <= cur < EOC then cur / WORDS_PER_SECTOR else NO_SECTOR
    requires FIRST_CLUSTER <= cur < EOC ==> base + curSector < |disk.sectors|
    requires buf[..] == SetWord16(disk.sectors[base + sector], offset, LAST)
    modifies disk, buf
    ensures disk.sectors == Link(old(disk.sectors), base, taken, cur)
  {
    ghost var img := disk.sectors;
    EntryPlace(sector, offset, taken);
    ghost var img1 := SetEntry(img, base, taken, LAST);
    if sector == curSector {
      Put16(buf, cur % WORDS_PER_SECTOR, taken);
      var code := disk.WriteBlock(base + sector, buf, 0);
      assert buf[0..0 + SECTOR_SIZE] == buf[..];
      return;
    }
    var code := disk.WriteBlock(base + sector, buf, 0);
    assert buf[0..0 + SECTOR_SIZE] == buf[..];
    assert disk.sectors == img1;
    if curSector >= EOC {
      return;
    }
    StoreEntry(disk, buf, base, cur, taken);
  }

  /** Loads the sector of an entry, changes the entry, and writes the sector back. */
  method StoreEntry(disk: Device, buf: array<byte>, base: nat, e: uint16, w: uint16)
    requires buf.Length == SECTOR_SIZE && base + e / WORDS_PER_SECTOR < |disk.sectors|
    modifies disk, buf
    ensures disk.sectors == SetEntry(old(disk.sectors), base, e, w)
  {
    var code := disk.ReadBlock(base + e / WORDS_PER_SECTOR, buf, 0);
    assert buf[0..0 + SECTOR_SIZE] == buf[..];
    Put16(buf, e % WORDS_PER_SECTOR, w);
    code := disk.WriteBlock(base + e / WORDS_PER_SECTOR, buf, 0);
    assert buf[0..0 + SECTOR_SIZE] == buf[..];
  }

  /**
   The search over the first copy: sector and offset of the lowest free entry, with that sector loaded and changed.
   */
  method FindFree(disk: Device, b: Bpb, startFat: nat, buf: array<byte>) returns (sector: nat, offset: nat)
    requires OnDisk(TablesOf(b, startFat), disk.sectors) && startFat + b.sectorsPerFat <= |disk.sectors|
    requires buf.Length == SECTOR_SIZE
    requires exists e ::
               0 <= e < b.sectorsPerFat * WORDS_PER_SECTOR && FatAt(disk.sectors, startFat, b.sectorsPerFat)[e] == 0
    modifies disk`log, buf
    ensures sector < b.sectorsPerFat && offset < WORDS_PER_SECTOR
    ensures LowestFree(FatAt(disk.sectors, startFat, b.sectorsPerFat), sector * WORDS_PER_SECTOR + offset)
    ensures buf[..] == SetWord16(disk.sectors[startFat + sector], offset, LAST)
  {
    ghost var f := FatAt(disk.sectors, startFat, b.sectorsPerFat);
    sector, offset := 0, NO_OFFSET;
    while sector < b.sectorsPerFat
      invariant sector <= b.sectorsPerFat && offset == NO_OFFSET
      invariant forall e :: 0 <= e < sector * WORDS_PER_SECTOR ==> f[e] != 0
    {
      var code := disk.ReadBlock(startFat + sector, buf, 0);
      assert buf[0..0 + SECTOR_SIZE] == buf[..];
      forall j | 0 <= j < WORDS_PER_SECTOR ensures f[sector * WORDS_PER_SECTOR + j] == Word16(buf[..], j) {}
      label Loaded:
      offset := TakeInSector(buf);
      forall e | sector * WORDS_PER_SECTOR <= e < (if offset < WORDS_PER_SECTOR then sector * WORDS_PER_SECTOR + offset
                                                   else (sector + 1) * WORDS_PER_SECTOR)
        ensures f[e] != 0
      {
        assert f[sector * WORDS_PER_SECTOR + (e - sector * WORDS_PER_SECTOR)]
            == Word16(old@Loaded(buf[..]), e - sector * WORDS_PER_SECTOR);
      }
      if offset >= WORDS_PER_SECTOR {
        sector := sector + 1;
        continue;
      }
      break;
    }
  }

  lemma FirstCopy(img: Image, t: Tables, taken: uint16, cur: uint16)
    requires OnDisk(t, img) && t.base + t.spf <= |img| && taken < t.spf * WORDS_PER_SECTOR
    requires FIRST_CLUSTER <= cur < EOC ==> cur < t.spf * WORDS_PER_SECTOR
    ensures LinkCopies(img, t, 1, taken, cur) == Link(img, t.base, taken, cur)
  {
    assert LinkCopies(img, t, 0, taken, cur) == img;
  }

  /** First sector of a copy of the table. */
  method StartOfCopy(startFat: nat, i: nat, b: Bpb) returns (base: nat)
    ensures base == CopyBase(TablesOf(b, startFat), i)
  {
    CopyBaseIs(TablesOf(b, startFat), i);
    base := startFat + i * b.sectorsPerFat;
  }

  /** Repeats in every further copy what was done to the first. */
  method CopyChanges(disk: Device, buf: array<byte>, b: Bpb, startFat: nat, sector: nat, offset: nat, curSector: nat,
                     cur: uint16, taken: uint16, ghost img: Image)
    requires buf.Length == SECTOR_SIZE && Usable(img, b, startFat, cur)
    requires sector < b.sectorsPerFat && offset < WORDS_PER_SECTOR && taken == sector * WORDS_PER_SECTOR + offset
    requires curSector == if FIRST_CLUSTER <= cur < EOC then cur / WORDS_PER_SECTOR else NO_SECTOR
    requires 1 <= b.fatCount && disk.sectors == LinkCopies(img, TablesOf(b, startFat), 1, taken, cur)
    modifies disk, buf
    ensures disk.sectors == LinkCopies(img, TablesOf(b, startFat), b.fatCount, taken, cur)
  {
    ghost var t := TablesOf(b, startFat);
    var i := 1;
    while i < b.fatCount
      invariant 1 <= i <= b.fatCount && disk.sectors == LinkCopies(img, t, i, taken, cur)
    {
      var base := StartOfCopy(startFat, i, b);
      CopiesApart(t, i, t.fatCount);
      RepeatInCopy(disk, buf, base, sector, offset, curSector, cur, taken);
      i := i + 1;
    }
  }

  method RepeatInCopy(disk: Device, buf: array<byte>, base: nat, sector: nat, offset: nat, curSector: nat, cur: uint16,
                      taken: uint16)
    requires buf.Length == SECTOR_SIZE && sector < NO_SECTOR && offset < WORDS_PER_SECTOR
    requires taken == sector * WORDS_PER_SECTOR + offset && base + sector < |disk.sectors|
    requires curSector == if FIRST_CLUSTER <= cur < EOC then cur / WORDS_PER_SECTOR else NO_SECTOR
    requires FIRST_CLUSTER <= cur < EOC ==> base + curSector < |disk.sectors|
    modifies disk, buf
    ensures disk.sectors == Link(old(disk.sectors), base, taken, cur)
  {
    var code := disk.ReadBlock(base + sector, buf, 0);
    assert buf[0..0 + SECTOR_SIZE] == buf[..];
    Put16(buf, offset, LAST);
    LinkInCopy(disk, buf, base, sector, offset, curSector, cur, taken);
  }

  /**
   Takes the lowest free cluster: its entry becomes 0xffff, the entry of `cur`, if that is a cluster, becomes its
   number, in every copy alike. There must be a free cluster whose number is not an end marker.
   */
  method GetFreeCluster(disk: Device, b: Bpb, startFat: nat, cur: uint16) returns (taken: uint16)
    requires Usable(disk.sectors, b, startFat, cur)
    requires exists e :: 0 <= e < Min(EOC, b.sectorsPerFat * WORDS_PER_SECTOR)
                         && FatAt(disk.sectors, startFat, b.sectorsPerFat)[e] == 0
    modifies disk
    ensures LowestFree(FatAt(old(disk.sectors), startFat, b.sectorsPerFat), taken) && taken < EOC
    ensures disk.sectors == LinkCopies(old(disk.sectors), TablesOf(b, startFat), b.fatCount, taken, cur)
  {
    ghost var t, img := TablesOf(b, startFat), disk.sectors;
    var buf := new byte[SECTOR_SIZE];
    ghost var f := FatAt(img, startFat, b.sectorsPerFat);
    ghost var e :| 0 <= e < Min(EOC, b.sectorsPerFat * WORDS_PER_SECTOR) && f[e] == 0;
    var sector, offset := FindFree(disk, b, startFat, buf);
    assert sector * WORDS_PER_SECTOR + offset <= e;
    taken := sector * WORDS_PER_SECTOR + offset;
    assert LowestFree(f, taken);
    var curSector := if cur >= EOC || cur < FIRST_CLUSTER then NO_SECTOR else cur / WORDS_PER_SECTOR;
    assert cur / WORDS_PER_SECTOR < b.sectorsPerFat || !(FIRST_CLUSTER <= cur < EOC);
    LinkInCopy(disk, buf, startFat, sector, offset, curSector, cur, taken);
    assert disk.sectors == LinkCopies(img, t, 1, taken, cur) by { FirstCopy(img, t, taken, cur); }
    CopyChanges(disk, buf, b, startFat, sector, offset, curSector, cur, taken, img);
  }

  // ----- What that means for files

  /** Every copy is updated alike; copies that agreed still agree; sectors outside the copies are untouched. */
  lemma AllCopiesUpdated(img: Image, b: Bpb, startFat: nat, cur: uint16, taken: uint16, copy: nat)
    requires Usable(img, b, startFat, cur) && taken < b.sectorsPerFat * WORDS_PER_SECTOR && copy < b.fatCount
    ensures var t := TablesOf(b, startFat); var img' := LinkCopies(img, t, b.fatCount, taken, cur);
      && CopyBase(t, copy) + t.spf <= |img|
      && FatAt(img', CopyBase(t, copy), t.spf) == Update(FatAt(img, CopyBase(t, copy), t.spf), EOC, taken, cur)
      && (FatAt(img, CopyBase(t, copy), t.spf) == FatAt(img, startFat, t.spf) ==>
            FatAt(img', CopyBase(t, copy), t.spf) == FatAt(img', startFat, t.spf))
      && forall s :: 0 <= s < |img| && !(startFat <= s < CopyBase(t, b.fatCount)) ==> img'[s] == img[s]
  {
    var t := TablesOf(b, startFat);
    LinkCopiesFats(img, t, b.fatCount, taken, cur, copy);
    LinkCopiesFats(img, t, b.fatCount, taken, cur, 0);
    LinkCopiesFrame(img, t, b.fatCount, taken, cur);
  }

  ghost function FatAfter(img: Image, b: Bpb, startFat: nat, cur: uint16, taken: uint16): Fat
    requires Usable(img, b, startFat, cur) && taken < b.sectorsPerFat * WORDS_PER_SECTOR
  {
    FatAt(LinkCopies(img, TablesOf(b, startFat), b.fatCount, taken, cur), startFat, b.sectorsPerFat)
  }

  /** Called on the last cluster of a file: exactly that file's chain grows, by the one cluster taken. */
  lemma GrowsChain(img: Image, b: Bpb, startFat: nat, chains: set<Chain>, ch: Chain, cur: uint16, taken: uint16)
    requires Usable(img, b, startFat, cur)
    requires var f := FatAt(img, startFat, b.sectorsPerFat);
      Chained(f, EOC, chains) && LowestFree(f, taken) && taken < EOC && f[0] != 0 && f[1] != 0
    requires ch in chains && ch != [] && cur == ch[|ch| - 1]
    ensures Chained(FatAfter(img, b, startFat, cur, taken), EOC, chains - {ch} + {ch + [taken]})
    ensures AllOnChains(FatAt(img, startFat, b.sectorsPerFat), chains) ==>
              AllOnChains(FatAfter(img, b, startFat, cur, taken), chains - {ch} + {ch + [taken]})
  {
    AllCopiesUpdated(img, b, startFat, cur, taken, 0);
    var f := FatAt(img, startFat, b.sectorsPerFat);
    assert 2 <= taken;
    UpdateExtends(f, EOC, chains, ch, taken);
  }

  /** Called with an end marker or a reserved number: the cluster taken is a new chain of its own. */
  lemma StartsChain(img: Image, b: Bpb, startFat: nat, chains: set<Chain>, cur: uint16, taken: uint16)
    requires Usable(img, b, startFat, cur) && Stops(cur, EOC)
    requires var f := FatAt(img, startFat, b.sectorsPerFat);
      Chained(f, EOC, chains) && LowestFree(f, taken) && taken < EOC && f[0] != 0 && f[1] != 0
    ensures Chained(FatAfter(img, b, startFat, cur, taken), EOC, chains + {[taken]})
    ensures AllOnChains(FatAt(img, startFat, b.sectorsPerFat), chains) ==>
              AllOnChains(FatAfter(img, b, startFat, cur, taken), chains + {[taken]})
    ensures [taken] !in chains
  {
    AllCopiesUpdated(img, b, startFat, cur, taken, 0);
    assert 2 <= taken;
    UpdateNewChain(FatAt(img, startFat, b.sectorsPerFat), EOC, chains, taken, cur);
  }
}
