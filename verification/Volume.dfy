/** A mounted FAT16 volume: which sectors hold a cluster, and which bytes make up a file. */
module Volume {
  import opened Bytes
  import opened Bpb
  import opened Disk
  import opened FatChain
  import opened FatTable
  import opened Products

  /** Sectors that any 16-bit cluster number can select in the table. */
  const LINK_SECTORS: nat := 256

  /** First sector of the table, first data sector, sectors per cluster. */
  datatype Vol = Vol(fatLba: nat, dataLba: nat, spc: nat)

  function VolOf(b: Bpb, startSect: nat): Vol
    requires 0 < b.bytesPerSect
  {
    Vol(startSect + b.reservedSectors, startSect + DataOffset(b), b.sectPerClust)
  }

  function ClusterBytes(v: Vol): nat {
    SECTOR_SIZE * v.spc
  }

  /** First sector of a cluster. */
  function ClusterLba(v: Vol, c: nat): nat
    requires FIRST_CLUSTER <= c
  {
    v.dataLba + Times(c - FIRST_CLUSTER, v.spc)
  }

  /** Clusters do not overlap, and lie in the data region. */
  lemma ClustersApart(v: Vol, c: nat, d: nat)
    requires FIRST_CLUSTER <= c < d
    ensures v.dataLba <= ClusterLba(v, c) && ClusterLba(v, c) + v.spc <= ClusterLba(v, d)
  {
    TimesApart(c - FIRST_CLUSTER, d - FIRST_CLUSTER, v.spc);
  }

  /** The table that the hop loops read: the next cluster for each of the 65536 numbers. */
  ghost function LinksOf(img: Image, v: Vol): (f: Fat)
    requires v.fatLba + LINK_SECTORS <= |img|
    ensures |f| == 0x1_0000
  {
    FatAt(img, v.fatLba, LINK_SECTORS)
  }

  predicate OnVolume(img: Image, v: Vol, c: nat) {
    FIRST_CLUSTER <= c && ClusterLba(v, c) + v.spc <= |img|
  }

  function Flat(img: Image, lba: nat, n: nat): (r: seq<byte>)
    requires lba + n <= |img|
    ensures |r| == n * SECTOR_SIZE
  {
    seq(n * SECTOR_SIZE, i requires 0 <= i < n * SECTOR_SIZE => img[lba + i / SECTOR_SIZE][i % SECTOR_SIZE])
  }

  /** The bytes of a cluster. */
  function ClusterData(img: Image, v: Vol, c: nat): (r: seq<byte>)
    requires OnVolume(img, v, c)
    ensures |r| == ClusterBytes(v)
  {
    Flat(img, ClusterLba(v, c), v.spc)
  }

  /** The bytes of all clusters of a chain, one after the other. */
  function Content(img: Image, v: Vol, ch: Chain): (r: seq<byte>)
    requires forall c :: c in ch ==> OnVolume(img, v, c)
    ensures |r| == Times(|ch|, ClusterBytes(v))
  {
    if ch == [] then []
    else Content(img, v, ch[..|ch| - 1]) + ClusterData(img, v, ch[|ch| - 1])
  }

  /** Byte `pos` of the content is byte pos % cb of cluster pos / cb. */
  lemma {:induction false} ContentAt(img: Image, v: Vol, ch: Chain, pos: nat)
    requires forall c :: c in ch ==> OnVolume(img, v, c)
    requires 0 < v.spc && pos < Times(|ch|, ClusterBytes(v))
    ensures 0 <= pos / ClusterBytes(v) < |ch| && pos % ClusterBytes(v) < ClusterBytes(v)
    ensures Content(img, v, ch)[pos] == ClusterData(img, v, ch[pos / ClusterBytes(v)])[pos % ClusterBytes(v)]
  {
    var cb, front := ClusterBytes(v), ch[..|ch| - 1];
    QuotientBelow(pos, cb, |ch|);
    QuotientBelow(pos, cb, |front|);
    var q := pos / cb;
    if pos < Times(|front|, cb) {
      ContentAt(img, v, front, pos);
      assert front[q] == ch[q];
    } else {
      DivModUnique(pos, cb, |front|, pos - Times(|front|, cb));
    }
  }
}
