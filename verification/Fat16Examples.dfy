/** A small volume on which write_fat16 loses data and records too small a size. */
module Fat16Examples {
  import opened Bytes
  import opened Bpb
  import opened Disk
  import opened FatChain
  import opened FatTable
  import opened Products
  import opened Volume
  import opened Fat16File
  import opened Fat16Read
  import opened Fat16State
  import opened Fat16Write
  import opened Fat16Theorems

  const SMALL: Bpb := Bpb(512, 1, 1, 1, 1, 16, 1, 2, 3)

  /** Entries 0 and 1 are reserved, 2 is the only cluster of the only file, all others are free. */
  function TableByte(i: nat): byte {
    if i == 0 then 0xf8 else if i < 6 then 0xff else 0
  }

  function TableSector(): (s: Sector) {
    seq<byte>(SECTOR_SIZE, i requires 0 <= i < SECTOR_SIZE => TableByte(i))
  }

  function ZeroSector(): (s: Sector) {
    seq<byte>(SECTOR_SIZE, _ => 0)
  }

  /** Sector 0 is reserved, 1 is the table, 2 the root directory, and cluster 2 starts at sector 3. */
  function SmallSector(k: nat): Sector {
    if k == 1 then TableSector() else ZeroSector()
  }

  function SmallDisk(): (img: Image)
    ensures |img| == 300
  {
    seq<Sector>(300, k requires 0 <= k < 300 => SmallSector(k))
  }

  function SmallVol(): Vol {
    VolOf(SMALL, 0)
  }

  lemma SmallLayout()
    ensures SmallVol() == Vol(1, 3, 1) && Sound(SmallDisk(), SMALL, SmallVol())
  {
    assert DataOffset(SMALL) == 3;
    LayoutSound(SmallDisk(), SMALL, 0);
  }

  lemma SmallEntries()
    ensures Sound(SmallDisk(), SMALL, SmallVol())
    ensures forall e :: 0 <= e < 256 ==>
              Table(SmallDisk(), SMALL, SmallVol())[e] == if e == 0 then 0xfff8 else if e < 3 then 0xffff else 0
  {
    SmallLayout();
    forall e | 0 <= e < 256
      ensures Table(SmallDisk(), SMALL, SmallVol())[e] == if e == 0 then 0xfff8 else if e < 3 then 0xffff else 0
    {
      assert SmallDisk()[1] == TableSector();
      assert Word16(TableSector(), e) == TableByte(2 * e) + 0x100 * TableByte(2 * e + 1);
    }
  }

  /** The volume meets everything that WriteFat16 asks for, with room for one more cluster. */
  lemma SmallReady()
    ensures Ready(SmallDisk(), SMALL, SmallVol(), {[2]}, 1) && FileChain({[2]}, [2], 2)
    ensures AllOnVolume(SmallDisk(), SmallVol(), [2]) && Capacity(SmallVol(), [2]) == 512
  {
    SmallLayout();
    SmallEntries();
    var f := Table(SmallDisk(), SMALL, SmallVol());
    assert Links(f, EOC, [2], 0);
    assert 3 in FreeSet(f);
    assert |FreeSet(f) - {3}| == |FreeSet(f)| - 1;
    assert Times(1, 512) == 512;
  }

  lemma SmallNeeds(v: Vol)
    requires v.spc == 1
    ensures Needed(v, 0, 1024) == 2 && Needed(v, 100, 1) == 1
  {
    assert ClusterBytes(v) == 512;
  }

  /** Everything about the volume that the examples need. */
  ghost predicate Small(img: Image, b: Bpb, chains: set<Chain>, ch: Chain) {
    && b.bytesPerSect == SECTOR_SIZE && 0 < b.sectPerClust && b.reservedSectors + LINK_SECTORS <= |img|
    && ch != [] && FileChain(chains, ch, 2)
    && var v := VolOf(b, 0);
       && Ready(img, b, v, chains, 1) && AllOnVolume(img, v, ch)
       && |ch| == 1 && Capacity(v, ch) == 512 && Needed(v, 0, 1024) == 2 && Needed(v, 100, 1) == 1
  }

  lemma SmallHolds()
    ensures Small(SmallDisk(), SMALL, {[2]}, [2])
  {
    SmallReady();
    SmallLayout();
    SmallNeeds(SmallVol());
  }

  method SmallDevice() returns (disk: Device, b: Bpb, ghost chains: set<Chain>, ghost ch: Chain)
    ensures fresh(disk) && Small(disk.sectors, b, chains, ch)
  {
    SmallHolds();
    disk := new Device(SmallDisk());
    b, chains, ch := SMALL, {[2]}, [2];
  }

  /** The file on that volume. */
  method SmallFile() returns (file: File, ghost chains: set<Chain>, ghost ch: Chain)
    ensures fresh(file) && fresh(file.node) && fresh(file.node.disk)
    ensures file.node.Mounted() && file.node.size == 0 && file.offset == 0
    ensures file.node.startSect == 0 && file.node.FirstCluster() == 2
    ensures Small(file.node.disk.sectors, file.node.bpb, chains, ch)
  {
    var disk, b;
    disk, b, chains, ch := SmallDevice();
    var node := new VfsNode(disk, b, 0, 2, 0);
    file := new File(node);
  }

  /** 1024 bytes are written to a file of one cluster, and 512 come back. */
  method GrowthLost() returns (back: nat)
    ensures back == 512
  {
    var file;
    ghost var chains, ch;
    file, chains, ch := SmallFile();
    var buffer, out := new byte[1024](_ => 7), new byte[1024](_ => 0);
    back := WriteThenRead(file, buffer, out, 1024, chains, ch);
  }

  /** One byte is written at offset 100 of a file of size 0 and comes back, and the size recorded is 1, not 101. */
  method SizeTooSmall() returns (size: nat, back: nat)
    ensures size == 1 && back == 1
  {
    var file;
    ghost var chains, ch;
    file, chains, ch := SmallFile();
    var buffer, out := new byte[1](_ => 7), new byte[1](_ => 0);
    file.offset := 100;
    back := WriteThenRead(file, buffer, out, 1, chains, ch);
    size := file.node.size;
  }
}
