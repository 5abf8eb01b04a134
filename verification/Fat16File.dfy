/** An open file of a mounted FAT16 volume, and the steps that read_fat16 and write_fat16 share. */
module Fat16File {
  import opened Bytes
  import opened Bpb
  import opened Disk
  import opened FatChain
  import opened Products
  import opened Volume

  class VfsNode {
    const disk: Device
    const bpb: Bpb
    const startSect: nat
    var size: nat
    var dirtyBit: nat
    /** Number of the first cluster; only its low 16 bits are used. */
    var fsSpecific: uint32

    constructor (disk: Device, bpb: Bpb, startSect: nat, firstCluster: uint32, size: nat)
      ensures this.disk == disk && this.bpb == bpb && this.startSect == startSect
      ensures fsSpecific == firstCluster && this.size == size && dirtyBit == 0
    {
      this.disk := disk;
      this.bpb := bpb;
      this.startSect := startSect;
      this.size := size;
      dirtyBit := 0;
      fsSpecific := firstCluster;
    }

    ghost predicate Mounted()
      reads disk
    {
      && bpb.bytesPerSect == SECTOR_SIZE && 0 < bpb.sectPerClust
      && startSect + bpb.reservedSectors + LINK_SECTORS <= |disk.sectors|
    }

    function Volume(): Vol
      requires bpb.bytesPerSect == SECTOR_SIZE
    {
      VolOf(bpb, startSect)
    }

    function FirstCluster(): uint16
      reads this
    {
      fsSpecific % 0x1_0000
    }

    /** Makes a cluster the file's first. */
    method SetFirstCluster(c: uint16)
      modifies this`fsSpecific, this`dirtyBit
      ensures fsSpecific == c == FirstCluster() && dirtyBit == 1
    {
      fsSpecific := c;
      dirtyBit := 1;
    }
  }

  class File {
    const node: VfsNode
    var offset: uint32

    constructor (node: VfsNode)
      ensures this.node == node && offset == 0
    {
      this.node := node;
      offset := 0;
    }
  }

  /** One hop: the entry of cluster `cur` in the first copy of the table. */
  method NextCluster(disk: Device, v: Vol, buf: array<byte>, cur: uint16) returns (next: uint16)
    requires buf.Length == SECTOR_SIZE && v.fatLba + LINK_SECTORS <= |disk.sectors|
    modifies disk`log, buf
    ensures next == LinksOf(disk.sectors, v)[cur]
  {
    var byteOffset := cur * 2;
    var code := disk.ReadBlock(v.fatLba + byteOffset / SECTOR_SIZE, buf, 0);
    assert buf[0..0 + SECTOR_SIZE] == buf[..];
    assert byteOffset % SECTOR_SIZE / 2 == cur % WORDS_PER_SECTOR && byteOffset / SECTOR_SIZE == cur / WORDS_PER_SECTOR;
    next := Get16(buf, byteOffset % SECTOR_SIZE / 2);
  }

  /** First sector of a cluster, as the code computes it. */
  method LbaOfCluster(v: Vol, cur: uint16) returns (lba: nat)
    requires FIRST_CLUSTER <= cur
    ensures lba == ClusterLba(v, cur)
  {
    TimesIs(cur - FIRST_CLUSTER, v.spc);
    lba := v.dataLba + (cur - FIRST_CLUSTER) * v.spc;
  }

  /** Loads all sectors of a cluster. */
  method LoadCluster(disk: Device, v: Vol, cur: uint16, buf: array<byte>)
    requires FIRST_CLUSTER <= cur && buf.Length == ClusterBytes(v)
    modifies disk`log, buf
    ensures OnVolume(disk.sectors, v, cur) ==> buf[..] == ClusterData(disk.sectors, v, cur)
  {
    var lba := LbaOfCluster(v, cur);
    ghost var there := OnVolume(disk.sectors, v, cur);
    var q := 0;
    while q < v.spc
      invariant q <= v.spc
      invariant there ==> forall i :: 0 <= i < q * SECTOR_SIZE ==>
                buf[i] == disk.sectors[lba + i / SECTOR_SIZE][i % SECTOR_SIZE]
    {
      label Loading:
      var code := disk.ReadBlock(lba + q, buf, q * SECTOR_SIZE);
      if there {
        forall i | 0 <= i < (q + 1) * SECTOR_SIZE
          ensures buf[i] == disk.sectors[lba + i / SECTOR_SIZE][i % SECTOR_SIZE]
        {
          if i < q * SECTOR_SIZE {
            assert buf[i] == buf[..q * SECTOR_SIZE][i] == old@Loading(buf[..q * SECTOR_SIZE])[i];
          } else {
            assert buf[i] == buf[q * SECTOR_SIZE..q * SECTOR_SIZE + SECTOR_SIZE][i - q * SECTOR_SIZE];
            assert i / SECTOR_SIZE == q && i % SECTOR_SIZE == i - q * SECTOR_SIZE;
          }
        }
      }
      q := q + 1;
    }
  }

  /** memcpy between two buffers. */
  method CopyBytes(dst: array<byte>, dstAt: nat, src: array<byte>, srcAt: nat, n: nat)
    requires dst != src && dstAt + n <= dst.Length && srcAt + n <= src.Length
    modifies dst
    ensures forall i :: dstAt <= i < dstAt + n ==> dst[i] == src[srcAt + (i - dstAt)]
    ensures forall i :: 0 <= i < dst.Length && !(dstAt <= i < dstAt + n) ==> dst[i] == old(dst[i])
  {
    for k := 0 to n
      invariant forall i :: dstAt <= i < dstAt + k ==> dst[i] == src[srcAt + (i - dstAt)]
      invariant forall i :: 0 <= i < dst.Length && !(dstAt <= i < dstAt + k) ==> dst[i] == old(dst[i])
    {
      dst[dstAt + k] := src[srcAt + k];
    }
  }
}
