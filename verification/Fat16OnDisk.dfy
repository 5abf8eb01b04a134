/**
 Files, chains and bytes of a FAT16 volume spelled out on the sectors of the disk, in plain arithmetic, and what
 reading, writing and taking a cluster mean there. The functions that the code is specified by appear only to show that
 they say the same.
 */
module Fat16OnDisk {
  import opened Bytes
  import opened Bpb
  import opened Disk
  import opened FatChain
  import opened FatTable
  import opened FreeCluster
  import opened Products
  import opened Volume
  import opened Fat16Read
  import opened Fat16State
  import opened Fat16WriteSteps
  import opened Fat16Write
  import opened Fat16Theorems

  // ----- The layout

  /** First sector of the data region: behind the reserved sectors, all copies of the table, and the root directory. */
  function DataSector(b: Bpb, startSect: nat): nat {
    startSect + b.reservedSectors + b.fatCount * b.sectorsPerFat + (b.rootEntryCount * 32 + 511) / 512
  }

  /** The sector of byte r of cluster c; cluster 2 is the first. */
  function ByteSector(b: Bpb, startSect: nat, c: nat, r: nat): int {
    DataSector(b, startSect) + (c - 2) * b.sectPerClust + r / 512
  }

  /** Entry e of the table that starts at sector `base`: two bytes, low byte first. */
  ghost function TableWord(img: Image, base: nat, e: nat): nat
    requires base + e / 256 < |img|
  {
    var lo: int, hi: int := img[base + e / 256][e % 256 * 2], img[base + e / 256][e % 256 * 2 + 1];
    lo + 256 * hi
  }

  lemma LayoutIs(b: Bpb, startSect: nat)
    requires b.bytesPerSect == 512
    ensures VolOf(b, startSect) == Vol(startSect + b.reservedSectors, DataSector(b, startSect), b.sectPerClust)
  {
  }

  /** Cluster 2 starts the data region, and each cluster begins where the one before it ends. */
  lemma ClustersAdjoin(v: Vol, c: nat)
    requires 2 <= c
    ensures ClusterLba(v, 2) == v.dataLba
    ensures ClusterLba(v, c + 1) == ClusterLba(v, c) + v.spc
  {
  }

  lemma ClusterSector(b: Bpb, startSect: nat, c: nat, r: nat)
    requires b.bytesPerSect == 512 && 2 <= c
    ensures ByteSector(b, startSect, c, r) == ClusterLba(VolOf(b, startSect), c) + r / 512
    ensures r < 512 * b.sectPerClust ==> r / 512 < b.sectPerClust
  {
    LayoutIs(b, startSect);
    TimesIs(c - 2, b.sectPerClust);
  }

  /** A cluster's bytes are those of its sectors, in order. */
  lemma ClusterByte(img: Image, b: Bpb, startSect: nat, c: nat, r: nat)
    requires b.bytesPerSect == 512 && OnVolume(img, VolOf(b, startSect), c) && r < 512 * b.sectPerClust
    ensures 0 <= ByteSector(b, startSect, c, r) < |img|
    ensures ClusterData(img, VolOf(b, startSect), c)[r] == img[ByteSector(b, startSect, c, r)][r % 512]
  {
    ClusterSector(b, startSect, c, r);
  }

  /** The table that hops read lies behind the reserved sectors. */
  lemma LinkIsWord(img: Image, b: Bpb, startSect: nat, c: uint16)
    requires b.bytesPerSect == 512 && startSect + b.reservedSectors + 256 <= |img|
    ensures LinksOf(img, VolOf(b, startSect))[c] == TableWord(img, startSect + b.reservedSectors, c)
  {
  }

  // ----- Chains

  /** The entry of each cluster holds the number of the next. */
  ghost predicate WalkOnDisk(img: Image, b: Bpb, startSect: nat, ch: Chain)
    requires startSect + b.reservedSectors + 256 <= |img|
  {
    && ch != []
    && (forall i :: 0 <= i < |ch| ==> 2 <= ch[i] < 0xfff8)
    && forall i :: 0 <= i < |ch| - 1 ==> TableWord(img, startSect + b.reservedSectors, ch[i]) == ch[i + 1]
  }

  /** And that of the last one an end marker, 0xfff8 to 0xffff. */
  ghost predicate ChainOnDisk(img: Image, b: Bpb, startSect: nat, ch: Chain)
    requires startSect + b.reservedSectors + 256 <= |img|
  {
    WalkOnDisk(img, b, startSect, ch) && 0xfff8 <= TableWord(img, startSect + b.reservedSectors, ch[|ch| - 1])
  }

  lemma ChainIs(img: Image, b: Bpb, startSect: nat, ch: Chain)
    requires b.bytesPerSect == 512 && startSect + b.reservedSectors + 256 <= |img|
    ensures ChainOnDisk(img, b, startSect, ch) <==> IsChain(LinksOf(img, VolOf(b, startSect)), EOC, ch)
  {
    var f := LinksOf(img, VolOf(b, startSect));
    if ChainOnDisk(img, b, startSect, ch) {
      forall i | 0 <= i < |ch| ensures Links(f, EOC, ch, i) {
        LinkIsWord(img, b, startSect, ch[i]);
      }
    }
    if IsChain(f, EOC, ch) {
      forall i | 0 <= i < |ch|
        ensures 2 <= ch[i] < 0xfff8
        ensures i < |ch| - 1 ==> TableWord(img, startSect + b.reservedSectors, ch[i]) == ch[i + 1]
      {
        assert Links(f, EOC, ch, i);
        LinkIsWord(img, b, startSect, ch[i]);
      }
      var last := |ch| - 1;
      assert Links(f, EOC, ch, last);
      LinkIsWord(img, b, startSect, ch[last]);
    }
  }

  /** All sectors of the chain's clusters exist. */
  ghost predicate AllOnDisk(img: Image, b: Bpb, startSect: nat, ch: Chain) {
    forall i :: 0 <= i < |ch| ==>
      2 <= ch[i] && DataSector(b, startSect) + (ch[i] - 2) * b.sectPerClust + b.sectPerClust <= |img|
  }

  lemma AllOnDiskIs(img: Image, b: Bpb, startSect: nat, ch: Chain)
    requires b.bytesPerSect == 512 && AllOnDisk(img, b, startSect, ch)
    ensures AllOnVolume(img, VolOf(b, startSect), ch)
  {
    forall c | c in ch ensures OnVolume(img, VolOf(b, startSect), c) {
      var i :| 0 <= i < |ch| && ch[i] == c;
      ClusterSector(b, startSect, c, 0);
    }
  }

  // ----- Reading

  lemma PositionInChain(b: Bpb, ch: Chain, pos: nat)
    requires 0 < b.sectPerClust
    ensures 0 <= pos / (512 * b.sectPerClust) && 0 <= pos % (512 * b.sectPerClust) < 512 * b.sectPerClust
    ensures pos / (512 * b.sectPerClust) < |ch| <==> pos < |ch| * (512 * b.sectPerClust)
    ensures pos % (512 * b.sectPerClust) % 512 == pos % 512
  {
    var cb: nat := 512 * b.sectPerClust;
    TimesIs(|ch|, cb);
    QuotientBelow(pos, cb, |ch|);
    DivMod(pos, cb);
    TimesOfSectors(pos / cb, b.sectPerClust);
    AddSectors(Times(pos / cb, cb), pos % cb);
  }

  lemma AddSectors(t: nat, r: nat)
    requires t % 512 == 0
    ensures (t + r) % 512 == r % 512
  {
  }

  lemma {:induction false} TimesOfSectors(n: nat, k: nat)
    ensures Times(n, 512 * k) % 512 == 0
  {
    if n != 0 { TimesOfSectors(n - 1, k); }
  }

  /** The sector of a position of the file with this chain. */
  function FileSector(b: Bpb, startSect: nat, ch: Chain, pos: nat): int
    requires 0 < b.sectPerClust && pos < |ch| * (512 * b.sectPerClust)
  {
    PositionInChain(b, ch, pos);
    ByteSector(b, startSect, ch[pos / (512 * b.sectPerClust)], pos % (512 * b.sectPerClust))
  }

  /** The file has this position, its sector exists, and the byte there is x. */
  ghost predicate Holds(img: Image, b: Bpb, startSect: nat, ch: Chain, pos: nat, x: byte) {
    && 0 < b.sectPerClust && pos < |ch| * (512 * b.sectPerClust)
    && 0 <= FileSector(b, startSect, ch, pos) < |img|
    && img[FileSector(b, startSect, ch, pos)][pos % 512] == x
  }

  lemma ContentByte(img: Image, b: Bpb, startSect: nat, ch: Chain, pos: nat)
    requires b.bytesPerSect == 512 && 0 < b.sectPerClust && AllOnDisk(img, b, startSect, ch)
    requires pos < |ch| * (512 * b.sectPerClust)
    ensures AllOnVolume(img, VolOf(b, startSect), ch) && pos < Capacity(VolOf(b, startSect), ch)
    ensures Holds(img, b, startSect, ch, pos, Content(img, VolOf(b, startSect), ch)[pos])
  {
    AllOnDiskIs(img, b, startSect, ch);
    PositionInChain(b, ch, pos);
    TimesIs(|ch|, 512 * b.sectPerClust);
    ContentAt(img, VolOf(b, startSect), ch, pos);
    var c := ch[pos / (512 * b.sectPerClust)];
    assert c in ch;
    ClusterByte(img, b, startSect, c, pos % (512 * b.sectPerClust));
  }

  /**
   What read_fat16 delivers as far as the entries are known to lead on, in a table that may be cyclic or broken further
   on: at least the bytes asked for that lie in those clusters, each the byte of its position.
   */
  lemma ReadOnWalk(img: Image, b: Bpb, startSect: nat, ch: Chain, offset: nat, size: nat, n: nat, got: seq<byte>)
    requires b.bytesPerSect == 512 && 0 < b.sectPerClust && startSect + b.reservedSectors + 256 <= |img|
    requires WalkOnDisk(img, b, startSect, ch) && AllOnDisk(img, b, startSect, ch)
    requires ReadGives(img, VolOf(b, startSect), ch[0], offset, size, n, got)
    ensures Min(size, Max(0, |ch| * (512 * b.sectPerClust) - offset)) <= n == |got| <= size
    ensures forall i :: 0 <= i < n && offset + i < |ch| * (512 * b.sectPerClust) ==>
              Holds(img, b, startSect, ch, offset + i, got[i])
  {
    if n < size && offset + n < |ch| * (512 * b.sectPerClust) {
      ClusterOfWalk(img, b, startSect, ch, offset + n);
    }
    forall i | 0 <= i < n && offset + i < |ch| * (512 * b.sectPerClust)
      ensures Holds(img, b, startSect, ch, offset + i, got[i])
    {
      assert ByteAt(img, VolOf(b, startSect), ch[0], offset + i, got[i]);
      ByteOfWalk(img, b, startSect, ch, offset + i, got[i]);
    }
  }

  lemma ClusterOfWalk(img: Image, b: Bpb, startSect: nat, ch: Chain, pos: nat)
    requires b.bytesPerSect == 512 && 0 < b.sectPerClust && startSect + b.reservedSectors + 256 <= |img|
    requires WalkOnDisk(img, b, startSect, ch) && pos < |ch| * (512 * b.sectPerClust)
    ensures 0 <= pos / (512 * b.sectPerClust) < |ch|
    ensures ClusterOf(img, VolOf(b, startSect), ch[0], pos) == Some(ch[pos / (512 * b.sectPerClust)])
  {
    var f := LinksOf(img, VolOf(b, startSect));
    forall i | 0 <= i < |ch| - 1 ensures f[ch[i]] == ch[i + 1] { LinkIsWord(img, b, startSect, ch[i]); }
    PositionInChain(b, ch, pos);
    HopWalk(f, EOC, ch, pos / (512 * b.sectPerClust));
  }

  lemma ByteOfWalk(img: Image, b: Bpb, startSect: nat, ch: Chain, pos: nat, x: byte)
    requires b.bytesPerSect == 512 && 0 < b.sectPerClust && startSect + b.reservedSectors + 256 <= |img|
    requires WalkOnDisk(img, b, startSect, ch) && AllOnDisk(img, b, startSect, ch)
    requires pos < |ch| * (512 * b.sectPerClust) && ByteAt(img, VolOf(b, startSect), ch[0], pos, x)
    ensures Holds(img, b, startSect, ch, pos, x)
  {
    ClusterOfWalk(img, b, startSect, ch, pos);
    AllOnDiskIs(img, b, startSect, ch);
    PositionInChain(b, ch, pos);
    var c := ch[pos / (512 * b.sectPerClust)];
    assert c in ch;
    ClusterByte(img, b, startSect, c, pos % (512 * b.sectPerClust));
  }

  /**
   What read_fat16 delivers for a file whose chain is on the disk: min(size, max(0, length - offset)) bytes, and byte i
   is the byte of that position in the sectors of the chain's clusters.
   */
  lemma ReadOnDisk(img: Image, b: Bpb, startSect: nat, ch: Chain, offset: nat, size: nat, n: nat, got: seq<byte>)
    requires b.bytesPerSect == 512 && 0 < b.sectPerClust && startSect + b.reservedSectors + 256 <= |img|
    requires ChainOnDisk(img, b, startSect, ch) && AllOnDisk(img, b, startSect, ch)
    requires ReadGives(img, VolOf(b, startSect), ch[0], offset, size, n, got)
    ensures n == |got| == Min(size, Max(0, |ch| * (512 * b.sectPerClust) - offset))
    ensures forall i :: 0 <= i < n ==> Holds(img, b, startSect, ch, offset + i, got[i])
  {
    var v := VolOf(b, startSect);
    ChainIs(img, b, startSect, ch);
    AllOnDiskIs(img, b, startSect, ch);
    TimesIs(|ch|, 512 * b.sectPerClust);
    ReadOfChain(img, v, ch, offset, size, n, got);
    forall i | 0 <= i < n ensures Holds(img, b, startSect, ch, offset + i, got[i]) {
      ContentByte(img, b, startSect, ch, offset + i);
    }
  }

  // ----- Writing

  /**
   Where the data is after a finished write: every position of the range, along the file's chain and then through the
   clusters taken, holds its byte.
   */
  lemma WriteOnDisk(j: Job, startSect: nat, img: Image, taken: seq<nat>, i: nat)
    requires Done(j, img, taken) && j.b.bytesPerSect == 512 && j.v == VolOf(j.b, startSect)
    requires AllOnDisk(j.base, j.b, startSect, Path(j.ch, taken)) && i < |j.data|
    ensures |img| == |j.base| && Holds(img, j.b, startSect, Path(j.ch, taken), j.offset + i, j.data[i])
  {
    var path := Path(j.ch, taken);
    AllOnDiskIs(j.base, j.b, startSect, path);
    RangeOnPath(j, img, taken);
    ContentByte(img, j.b, startSect, path, j.offset + i);
    PathByte(j, img, taken, j.offset + i);
  }

  /** The path is long enough for the range. */
  lemma RangeOnPath(j: Job, img: Image, taken: seq<nat>)
    requires Done(j, img, taken)
    ensures j.offset + |j.data| <= Capacity(j.v, Path(j.ch, taken))
    ensures Capacity(j.v, Path(j.ch, taken)) == |Path(j.ch, taken)| * (512 * j.v.spc)
  {
    TimesIs(|Path(j.ch, taken)|, 512 * j.v.spc);
  }

  /** Byte x of sector s is that of a position in the range. */
  ghost predicate Hit(b: Bpb, startSect: nat, path: Chain, from: nat, to: nat, s: nat, x: nat)
    requires 0 < b.sectPerClust && to <= |path| * (512 * b.sectPerClust)
  {
    exists pos :: from <= pos < to && FileSector(b, startSect, path, pos) == s && pos % 512 == x
  }

  /** No other byte of the data region changes. */
  lemma WriteNowhereElse(j: Job, startSect: nat, img: Image, taken: seq<nat>, s: nat, x: nat)
    requires Done(j, img, taken) && j.b.bytesPerSect == 512 && j.v == VolOf(j.b, startSect)
    requires AllOnDisk(j.base, j.b, startSect, Path(j.ch, taken))
    requires j.offset + |j.data| <= |Path(j.ch, taken)| * (512 * j.b.sectPerClust)
    requires DataSector(j.b, startSect) <= s < |img| && x < 512
    requires !Hit(j.b, startSect, Path(j.ch, taken), j.offset, j.offset + |j.data|, s, x)
    ensures |img| == |j.base| && img[s][x] == j.base[s][x]
  {
    var path := Path(j.ch, taken);
    LayoutIs(j.b, startSect);
    if OnPath(j.v, path, s) {
      var h :| 0 <= h < |path| && ClusterLba(j.v, path[h]) <= s < ClusterLba(j.v, path[h]) + j.v.spc;
      var r := (s - ClusterLba(j.v, path[h])) * 512 + x;
      PathByteKept(j, startSect, img, taken, h, r, s, x);
    }
  }

  lemma PathByteKept(j: Job, startSect: nat, img: Image, taken: seq<nat>, h: nat, r: nat, s: nat, x: nat)
    requires Done(j, img, taken) && j.b.bytesPerSect == 512 && j.v == VolOf(j.b, startSect)
    requires AllOnDisk(j.base, j.b, startSect, Path(j.ch, taken))
    requires j.offset + |j.data| <= |Path(j.ch, taken)| * (512 * j.b.sectPerClust)
    requires s < |img| && x < 512 && !Hit(j.b, startSect, Path(j.ch, taken), j.offset, j.offset + |j.data|, s, x)
    requires h < |Path(j.ch, taken)| && 2 <= Path(j.ch, taken)[h]
    requires s == ClusterLba(j.v, Path(j.ch, taken)[h]) + r / 512 && x == r % 512 && r < 512 * j.b.sectPerClust
    ensures |img| == |j.base| && img[s][x] == j.base[s][x]
  {
    var cb, path := 512 * j.b.sectPerClust, Path(j.ch, taken);
    var pos := Times(h, cb) + r;
    DivModUnique(pos, cb, h, r);
    TimesIs(|path|, cb);
    QuotientBelow(pos, cb, |path|);
    PositionInChain(j.b, path, pos);
    ClusterSector(j.b, startSect, path[h], r);
    assert FileSector(j.b, startSect, path, pos) == s && pos % 512 == x;
    AllOnDiskIs(j.base, j.b, startSect, path);
    ContentByte(img, j.b, startSect, path, pos);
    ContentByte(j.base, j.b, startSect, path, pos);
    PathByte(j, img, taken, pos);
  }

  /** Before the data region only the tables change, and not even they if the range lies inside the chain. */
  lemma WriteFront(j: Job, startSect: nat, img: Image, taken: seq<nat>, s: nat)
    requires Done(j, img, taken) && j.b.bytesPerSect == 512 && j.v == VolOf(j.b, startSect)
    requires s < |img| && s < DataSector(j.b, startSect)
    requires j.offset + |j.data| <= |j.ch| * (512 * j.b.sectPerClust)
          || s < startSect + j.b.reservedSectors
          || startSect + j.b.reservedSectors + j.b.fatCount * j.b.sectorsPerFat <= s
    ensures |img| == |j.base| && img[s] == j.base[s]
  {
    LayoutIs(j.b, startSect);
    TimesIs(|j.ch|, 512 * j.b.sectPerClust);
    TakenIffBeyond(j, img, taken);
    CopyBaseIs(TablesOf(j.b, j.v.fatLba), j.b.fatCount);
  }

  // ----- Taking a cluster

  /**
   What get_free_cluster has done to the disk: in every copy the entry taken is 0xffff and that of `cur`, if it is a
   cluster, is the number taken; no other entry changes.
   */
  lemma TakeOnDisk(img: Image, b: Bpb, startFat: nat, cur: uint16, taken: uint16, i: nat, base: nat, e: nat)
    requires Usable(img, b, startFat, cur) && taken < b.sectorsPerFat * 256
    requires i < b.fatCount && e < b.sectorsPerFat * 256
    requires base == startFat + i * b.sectorsPerFat
    ensures var img' := LinkCopies(img, TablesOf(b, startFat), b.fatCount, taken, cur);
      && |img'| == |img| && base + e / 256 < |img|
      && TableWord(img', base, e)
         == if 2 <= cur < 0xfff8 && e == cur then taken else if e == taken then 0xffff else TableWord(img, base, e)
  {
    var t := TablesOf(b, startFat);
    CopyIsUpdated(img, b, startFat, cur, taken, i, base);
    WordUpdated(img, LinkCopies(img, t, b.fatCount, taken, cur), base, t.spf, cur, taken, e);
  }

  lemma CopyIsUpdated(img: Image, b: Bpb, startFat: nat, cur: uint16, taken: uint16, i: nat, base: nat)
    requires Usable(img, b, startFat, cur) && taken < b.sectorsPerFat * 256 && i < b.fatCount
    requires base == startFat + i * b.sectorsPerFat
    ensures var img' := LinkCopies(img, TablesOf(b, startFat), b.fatCount, taken, cur);
      && |img'| == |img| && base + b.sectorsPerFat <= |img|
      && FatAt(img', base, b.sectorsPerFat) == Update(FatAt(img, base, b.sectorsPerFat), EOC, taken, cur)
  {
    var t := TablesOf(b, startFat);
    CopyBaseIs(t, i);
    assert t.spf == b.sectorsPerFat && t.fatCount == b.fatCount && CopyBase(t, i) == base;
    LinkCopiesFats(img, t, t.fatCount, taken, cur, i);
  }

  /** No sector outside the copies changes. */
  lemma TakeNowhereElse(img: Image, b: Bpb, startFat: nat, cur: uint16, taken: uint16, s: nat)
    requires Usable(img, b, startFat, cur) && taken < b.sectorsPerFat * 256
    requires s < |img| && !(startFat <= s < startFat + b.fatCount * b.sectorsPerFat)
    ensures LinkCopies(img, TablesOf(b, startFat), b.fatCount, taken, cur)[s] == img[s]
  {
    CopyBaseIs(TablesOf(b, startFat), b.fatCount);
    LinkCopiesFrame(img, TablesOf(b, startFat), b.fatCount, taken, cur);
  }

  lemma WordUpdated(img: Image, img': Image, base: nat, spf: nat, cur: uint16, taken: uint16, e: nat)
    requires |img'| == |img| && base + spf <= |img| && e < spf * 256 && taken < spf * 256
    requires 2 <= cur < 0xfff8 ==> cur < spf * 256
    requires FatAt(img', base, spf) == Update(FatAt(img, base, spf), EOC, taken, cur)
    ensures TableWord(img', base, e)
         == if 2 <= cur < 0xfff8 && e == cur then taken else if e == taken then 0xffff else TableWord(img, base, e)
  {
    FatWord(img, base, spf, e);
    FatWord(img', base, spf, e);
  }

  lemma FatWord(img: Image, base: nat, spf: nat, e: nat)
    requires base + spf <= |img| && e < spf * 256
    ensures FatAt(img, base, spf)[e] == TableWord(img, base, e)
  {
  }

  /** The cluster taken is the lowest one whose entry in the first copy is zero. */
  lemma LowestOnDisk(img: Image, b: Bpb, startFat: nat, taken: nat)
    requires startFat + b.sectorsPerFat <= |img| && LowestFree(FatAt(img, startFat, b.sectorsPerFat), taken)
    ensures taken < b.sectorsPerFat * 256 && TableWord(img, startFat, taken) == 0
    ensures forall e :: 0 <= e < taken ==> TableWord(img, startFat, e) != 0
  {
    forall e | 0 <= e <= taken ensures TableWord(img, startFat, e) == FatAt(img, startFat, b.sectorsPerFat)[e] {
      FatWord(img, startFat, b.sectorsPerFat, e);
    }
  }
}
