/** read_file of tools/fat.c: the clusters of a FAT12 file, one after the other, into one buffer. */
module Fat12File {
  import opened Bytes
  import opened FatChain
  import opened Products
  import opened Fat12

  type positive16 = x: int | 0 < x < 0x1_0000 witness 1

  datatype Header = Header(
    bytesPerSector: positive16,
    sectorsPerCluster: byte,
    reserved: uint16,
    fatCount: byte,
    sectorsPerFat: uint16,
    rootEntries: uint16)

  /** Sectors of the root directory, with 32 bytes for an entry, rounded up. */
  function DirSize(h: Header): nat {
    (32 * h.rootEntries + h.bytesPerSector - 1) / h.bytesPerSector
  }

  lemma DirSizeSuffices(h: Header)
    ensures Times(DirSize(h), h.bytesPerSector) >= 32 * h.rootEntries
    ensures Times(DirSize(h), h.bytesPerSector) < 32 * h.rootEntries + h.bytesPerSector
  {
    DivMod(32 * h.rootEntries + h.bytesPerSector - 1, h.bytesPerSector);
  }

  /** Bytes of one cluster. */
  function ClusterSize(h: Header): nat {
    Times(h.sectorsPerCluster, h.bytesPerSector)
  }

  /** First sector of cluster 2. */
  function DataStart(h: Header): nat {
    h.reserved + Times(h.fatCount, h.sectorsPerFat) + DirSize(h)
  }

  /** Where in the image a cluster starts; the byte position is a 32-bit number. */
  function ClusterStart(h: Header, c: nat): nat
    requires FIRST_CLUSTER <= c
  {
    Times(DataStart(h) + Times(c - FIRST_CLUSTER, h.sectorsPerCluster), h.bytesPerSector) % TWO_32
  }

  predicate InImage(image: seq<byte>, h: Header, c: nat) {
    FIRST_CLUSTER <= c && ClusterStart(h, c) + ClusterSize(h) <= |image|
  }

  function Cluster(image: seq<byte>, h: Header, c: nat): (r: seq<byte>)
    requires InImage(image, h, c)
    ensures |r| == ClusterSize(h)
  {
    image[ClusterStart(h, c)..ClusterStart(h, c) + ClusterSize(h)]
  }

  function Clusters(image: seq<byte>, h: Header, ch: Chain): (r: seq<byte>)
    requires forall c :: c in ch ==> InImage(image, h, c)
    ensures |r| == Times(|ch|, ClusterSize(h))
  {
    if ch == [] then []
    else Clusters(image, h, ch[..|ch| - 1]) + Cluster(image, h, ch[|ch| - 1])
  }

  /** Cluster i of the chain is the i-th stretch of the file. */
  lemma {:induction false} ClustersAt(image: seq<byte>, h: Header, ch: Chain, i: nat)
    requires (forall c :: c in ch ==> InImage(image, h, c)) && i < |ch|
    ensures Times(i, ClusterSize(h)) + ClusterSize(h) <= |Clusters(image, h, ch)|
    ensures Clusters(image, h, ch)[Times(i, ClusterSize(h))..Times(i, ClusterSize(h)) + ClusterSize(h)]
         == Cluster(image, h, ch[i])
  {
    var front, size, at := ch[..|ch| - 1], ClusterSize(h), Times(i, ClusterSize(h));
    var before, last := Clusters(image, h, front), Cluster(image, h, ch[|ch| - 1]);
    TimesApart(i, |ch|, size);
    if i < |front| {
      ClustersAt(image, h, front, i);
      assert front[i] == ch[i];
      assert (before + last)[at..at + size] == before[at..at + size];
    } else {
      assert (before + last)[|before|..|before| + size] == last;
    }
  }

  // ----- In plain numbers

  /** Where byte r of cluster c is in the image: behind the reserved sectors, the tables and the root directory. */
  function BytePosition(h: Header, c: nat, r: nat): int {
    var directory := (32 * h.rootEntries + h.bytesPerSector - 1) / h.bytesPerSector;
    var sector := h.reserved + h.fatCount * h.sectorsPerFat + directory + (c - 2) * h.sectorsPerCluster;
    sector * h.bytesPerSector % TWO_32 + r
  }

  /** The data region begins where the root directory ends. */
  lemma DataFollows(h: Header)
    ensures DataStart(h) == h.reserved + h.fatCount * h.sectorsPerFat + DirSize(h)
    ensures ClusterStart(h, 2) == DataStart(h) * h.bytesPerSector % TWO_32
  {
    TimesIs(h.fatCount, h.sectorsPerFat);
    TimesIs(DataStart(h), h.bytesPerSector);
  }

  /** Each cluster begins where the one before it ends. */
  lemma ClustersAdjoin(h: Header, c: nat)
    requires 2 <= c
    ensures ClusterStart(h, c + 1) == (ClusterStart(h, c) + ClusterSize(h)) % TWO_32
  {
    var first := DataStart(h) + Times(c - 2, h.sectorsPerCluster);
    assert Times(c + 1 - 2, h.sectorsPerCluster) == Times(c - 2, h.sectorsPerCluster) + h.sectorsPerCluster;
    TimesAdds(first, h.sectorsPerCluster, h.bytesPerSector);
    AddWrapped(Times(first, h.bytesPerSector), ClusterSize(h));
  }

  lemma AddWrapped(a: nat, b: nat)
    ensures (a % TWO_32 + b) % TWO_32 == (a + b) % TWO_32
  {
  }

  lemma {:induction false} TimesAdds(a: nat, b: nat, d: nat)
    ensures Times(a + b, d) == Times(a, d) + Times(b, d)
    decreases b
  {
    if b != 0 { TimesAdds(a, b - 1, d); }
  }

  lemma StartIs(h: Header, c: nat)
    requires 2 <= c
    ensures ClusterStart(h, c) == BytePosition(h, c, 0)
    ensures ClusterSize(h) == h.sectorsPerCluster * h.bytesPerSector
  {
    TimesIs(h.sectorsPerCluster, h.bytesPerSector);
    TimesIs(h.fatCount, h.sectorsPerFat);
    TimesIs(c - 2, h.sectorsPerCluster);
    TimesIs(DataStart(h) + (c - 2) * h.sectorsPerCluster, h.bytesPerSector);
  }

  /** Byte i of the file, as far as its chain reaches: its cluster is in the image, and the byte there is x. */
  ghost predicate Holds(image: seq<byte>, h: Header, ch: Chain, i: nat, x: byte)
    requires 0 < h.sectorsPerCluster * h.bytesPerSector
  {
    var q, r := i / (h.sectorsPerCluster * h.bytesPerSector), i % (h.sectorsPerCluster * h.bytesPerSector);
    && 0 <= q < |ch| && 2 <= ch[q] && 0 <= r
    && BytePosition(h, ch[q], r) < |image|
    && image[BytePosition(h, ch[q], r)] == x
  }

  lemma FileByte(image: seq<byte>, h: Header, ch: Chain, i: nat)
    requires 0 < ClusterSize(h) && forall c :: c in ch ==> InImage(image, h, c)
    requires i < |Clusters(image, h, ch)|
    ensures 0 < h.sectorsPerCluster * h.bytesPerSector && Holds(image, h, ch, i, Clusters(image, h, ch)[i])
  {
    var size := ClusterSize(h);
    TimesIs(h.sectorsPerCluster, h.bytesPerSector);
    QuotientBelow(i, size, |ch|);
    DivMod(i, size);
    var q, r := i / size, i % size;
    assert ch[q] in ch;
    ClustersAt(image, h, ch, q);
    StartIs(h, ch[q]);
    var all, from := Clusters(image, h, ch), Times(q, size);
    assert all[i] == all[from..from + size][r];
    assert Cluster(image, h, ch[q])[r] == image[ClusterStart(h, ch[q]) + r];
  }

  /** Clusters of the buffer: the file's size, rounded up. */
  function BufferClusters(size: uint32, clusterSize: nat): nat
    requires 0 < clusterSize
  {
    (size + clusterSize - 1) % TWO_32 / clusterSize
  }

  /** Without overflow, the buffer has room for the file and less than a cluster to spare. */
  lemma BufferFits(size: uint32, clusterSize: nat)
    requires 0 < clusterSize && size + clusterSize - 1 < TWO_32
    ensures var room := Times(BufferClusters(size, clusterSize), clusterSize); size <= room < size + clusterSize
  {
    DivMod(size + clusterSize - 1, clusterSize);
  }

  /** The entries that next_cluster finds. */
  ghost function Decoded(fat: seq<byte>): (f: Fat)
    requires |fat| < 0x1_0000
    ensures |f| == |fat| / 3 * 2
  {
    seq(|fat| / 3 * 2, k requires 0 <= k < |fat| / 3 * 2 => EntryAt(fat, k))
  }

  /** Each entry holds the number of the next cluster, and that of the last one an end marker, 0xff8 to 0xfff. */
  ghost predicate ChainInTable(fat: seq<byte>, ch: Chain) {
    && ch != []
    && (forall i :: 0 <= i < |ch| ==> 2 <= ch[i] < 0xff8 && ch[i] < |fat| / 3 * 2)
    && (forall i :: 0 <= i < |ch| - 1 ==> EntryAt(fat, ch[i]) == ch[i + 1])
    && 0xff8 <= EntryAt(fat, ch[|ch| - 1])
  }

  lemma ChainIs(fat: seq<byte>, ch: Chain)
    requires |fat| < 0x1_0000
    ensures ChainInTable(fat, ch) <==> IsChain(Decoded(fat), EOC12, ch)
  {
    var f := Decoded(fat);
    if ChainInTable(fat, ch) {
      forall i | 0 <= i < |ch| ensures Links(f, EOC12, ch, i) {}
    }
    if IsChain(f, EOC12, ch) {
      forall i | 0 <= i < |ch|
        ensures 2 <= ch[i] < 0xff8 && ch[i] < |fat| / 3 * 2
        ensures i < |ch| - 1 ==> EntryAt(fat, ch[i]) == ch[i + 1]
      {
        assert Links(f, EOC12, ch, i);
      }
      assert Links(f, EOC12, ch, |ch| - 1);
    }
  }

  lemma ClustersGrow(image: seq<byte>, h: Header, ch: Chain, i: nat)
    requires i < |ch| && (forall c :: c in ch[..i] ==> InImage(image, h, c)) && InImage(image, h, ch[i])
    ensures forall c :: c in ch[..i + 1] ==> InImage(image, h, c)
    ensures Clusters(image, h, ch[..i + 1]) == Clusters(image, h, ch[..i]) + Cluster(image, h, ch[i])
  {
    assert ch[..i + 1][..i] == ch[..i];
  }

  /** One hop along the chain. */
  lemma NextOnChain(fat: seq<byte>, ch: Chain, i: nat)
    requires |fat| < 0x1_0000 && IsChain(Decoded(fat), EOC12, ch) && i < |ch|
    ensures FIRST_CLUSTER <= ch[i] < EOC12 && Offset(ch[i]) + 1 < |fat|
    ensures NextCluster(fat, ch[i]) >= EOC12 <==> i + 1 == |ch|
    ensures i + 1 < |ch| ==> NextCluster(fat, ch[i]) == ch[i + 1]
  {
    ChainEntry(Decoded(fat), EOC12, ch, i);
    NextIsEntry(fat, ch[i]);
  }

  /** fseek and fread: true if the whole cluster was there. */
  method ReadSectors(image: seq<byte>, h: Header, c: uint16, out: array<byte>, at: nat) returns (ok: bool)
    requires FIRST_CLUSTER <= c && 0 < ClusterSize(h) && at + ClusterSize(h) <= out.Length
    modifies out
    ensures ok <==> InImage(image, h, c)
    ensures ok ==> out[..at + ClusterSize(h)] == old(out[..at]) + Cluster(image, h, c)
  {
    var size := ClusterSize(h);
    var start := ClusterStart(h, c);
    var n := Max(0, Min(size, |image| - start));
    ghost var piece := if n == 0 then [] else image[start..start + n];
    for k := 0 to n
      invariant forall j :: 0 <= j < k ==> out[at + j] == piece[j]
      invariant forall i :: 0 <= i < at ==> out[i] == old(out[i])
    {
      out[at + k] := image[start + k];
    }
    ok := n == size;
    if ok {
      assert forall j :: 0 <= j < size ==> out[at..at + size][j] == piece[j];
      assert out[at..at + size] == piece;
      assert out[..at + size] == out[..at] + out[at..at + size];
    }
  }

  /** The loop over the file's chain; it succeeds exactly if every cluster is in the image. */
  method ReadChain(image: seq<byte>, h: Header, fat: seq<byte>, first: uint16, out: array<byte>, ghost ch: Chain)
      returns (ok: bool)
    requires 0 < ClusterSize(h) && |fat| < 0x1_0000
    requires IsChain(Decoded(fat), EOC12, ch) && ch[0] == first && Times(|ch|, ClusterSize(h)) <= out.Length
    modifies out
    ensures ok <==> forall c :: c in ch ==> InImage(image, h, c)
    ensures ok ==> out[..Times(|ch|, ClusterSize(h))] == Clusters(image, h, ch)
  {
    var clusterSize := ClusterSize(h);
    var at, cur := 0, first;
    ghost var i := 0;
    while true
      invariant 0 <= i < |ch| && cur == ch[i] && at == Times(i, clusterSize)
      invariant forall c :: c in ch[..i] ==> InImage(image, h, c)
      invariant at <= out.Length && out[..at] == Clusters(image, h, ch[..i])
      decreases |ch| - i
    {
      TimesApart(i, |ch|, clusterSize);
      NextOnChain(fat, ch, i);
      ok := ReadSectors(image, h, cur, out, at);
      if !ok {
        assert cur in ch;
        return;
      }
      ClustersGrow(image, h, ch, i);
      i, at := i + 1, at + clusterSize;
      cur := NextCluster(fat, cur);
      if cur >= EOC12 {
        break;
      }
    }
    assert ch[..i] == ch;
  }

  /**
   Reads the file into a buffer of its size, rounded up to clusters. On success the buffer begins with the concatenated
   clusters; it is filled exactly by them if the chain has as many clusters as the size calls for.
   */
  method ReadFile(image: seq<byte>, h: Header, fat: seq<byte>, first: uint16, size: uint32, ghost ch: Chain)
      returns (ok: bool, out: array<byte>)
    requires 0 < ClusterSize(h) && |fat| < 0x1_0000
    requires ChainInTable(fat, ch) && ch[0] == first
    requires |ch| <= BufferClusters(size, ClusterSize(h))
    ensures fresh(out) && out.Length == Times(BufferClusters(size, ClusterSize(h)), ClusterSize(h))
    ensures ok <==> forall c :: c in ch ==> InImage(image, h, c)
    ensures ok ==> |Clusters(image, h, ch)| <= out.Length && out[..|Clusters(image, h, ch)|] == Clusters(image, h, ch)
    ensures ok && |ch| == BufferClusters(size, ClusterSize(h)) ==> out[..] == Clusters(image, h, ch)
    ensures 0 < h.sectorsPerCluster * h.bytesPerSector
    ensures ok ==> |ch| * (h.sectorsPerCluster * h.bytesPerSector) <= out.Length
    ensures ok ==> forall i :: 0 <= i < |ch| * (h.sectorsPerCluster * h.bytesPerSector) ==>
              Holds(image, h, ch, i, out[i])
  {
    var count := BufferClusters(size, ClusterSize(h));
    out := new byte[Times(count, ClusterSize(h))];
    TimesGrows(|ch|, count, ClusterSize(h));
    ChainIs(fat, ch);
    ok := ReadChain(image, h, fat, first, out, ch);
    TimesIs(h.sectorsPerCluster, h.bytesPerSector);
    TimesIs(|ch|, ClusterSize(h));
    if ok {
      forall i | 0 <= i < |Clusters(image, h, ch)| ensures Holds(image, h, ch, i, out[i]) {
        FileByte(image, h, ch, i);
        assert out[i] == out[..|Clusters(image, h, ch)|][i];
      }
    }
  }
}
