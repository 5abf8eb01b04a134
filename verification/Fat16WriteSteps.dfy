/** The steps of write_fat16: hops that may grow the chain, and pieces written cluster by cluster. */
module Fat16WriteSteps {
  import opened Bytes
  import opened Bpb
  import opened Disk
  import opened FatChain
  import opened FatTable
  import opened FreeCluster
  import opened Products
  import opened Volume
  import opened Fat16File
  import opened Fat16State

  // ----- The data written so far

  /** Byte i of cluster c, the h-th of the path, after the first n bytes of `data` have been written at `offset`. */
  ghost function Expected(img0: Image, v: Vol, c: nat, h: nat, offset: nat, n: nat, data: seq<byte>, i: nat): byte
    requires OnVolume(img0, v, c) && i < ClusterBytes(v) && n <= |data|
  {
    var pos := Times(h, ClusterBytes(v)) + i;
    if offset <= pos < offset + n then data[pos - offset] else ClusterData(img0, v, c)[i]
  }

  ghost predicate ClusterWritten(img0: Image, img: Image, v: Vol, c: nat, h: nat, offset: nat, n: nat, data: seq<byte>)
    requires n <= |data| && |img| == |img0|
  {
    OnVolume(img0, v, c) ==>
      forall i :: 0 <= i < ClusterBytes(v) ==> ClusterData(img, v, c)[i] == Expected(img0, v, c, h, offset, n, data, i)
  }

  ghost predicate ClusterKept(img0: Image, img: Image, v: Vol, c: nat)
    requires |img| == |img0|
  {
    OnVolume(img0, v, c) ==> ClusterData(img, v, c) == ClusterData(img0, v, c)
  }

  /** The path holds what was written so far, and no other cluster has changed. */
  ghost predicate Written(img0: Image, img: Image, v: Vol, path: Chain, offset: nat, n: nat, data: seq<byte>)
    requires n <= |data|
  {
    && |img| == |img0|
    && (forall h :: 0 <= h < |path| ==> ClusterWritten(img0, img, v, path[h], h, offset, n, data))
    && (forall c :: FIRST_CLUSTER <= c && c !in path ==> ClusterKept(img0, img, v, c))
  }

  /** A cluster that joins the path as the h-th before anything is written to it. */
  lemma KeptIsWritten(img0: Image, img: Image, v: Vol, c: nat, h: nat, offset: nat, n: nat, data: seq<byte>)
    requires n <= |data| && |img| == |img0| && ClusterKept(img0, img, v, c)
    requires n == 0 || offset + n <= Times(h, ClusterBytes(v))
    ensures ClusterWritten(img0, img, v, c, h, offset, n, data)
  {
  }

  lemma PathGrows(img0: Image, img: Image, v: Vol, path: Chain, added: nat, offset: nat, n: nat, data: seq<byte>)
    requires n <= |data| && Written(img0, img, v, path, offset, n, data)
    requires added !in path && FIRST_CLUSTER <= added
    requires n == 0 || offset + n <= Times(|path|, ClusterBytes(v))
    ensures Written(img0, img, v, path + [added], offset, n, data)
  {
    var longer := path + [added];
    forall h | 0 <= h < |longer| ensures ClusterWritten(img0, img, v, longer[h], h, offset, n, data) {
      if h < |path| {
        assert ClusterWritten(img0, img, v, path[h], h, offset, n, data) && longer[h] == path[h];
      } else {
        assert ClusterKept(img0, img, v, added) && longer[h] == added && h == |path|;
        KeptIsWritten(img0, img, v, added, h, offset, n, data);
      }
    }
    forall c | FIRST_CLUSTER <= c && c !in longer ensures ClusterKept(img0, img, v, c) {
      assert c !in path;
    }
  }

  /** img' differs from img in cluster c only, and there holds bytes [n, n + k) of the data from byte `at` on. */
  ghost predicate Stored(img: Image, img': Image, v: Vol, c: nat, at: nat, data: seq<byte>, n: nat, k: nat)
    requires FIRST_CLUSTER <= c && n + k <= |data|
  {
    && OnlyCluster(img, img', v, c)
    && (OnVolume(img, v, c) ==>
          forall i :: 0 <= i < ClusterBytes(v) ==>
            ClusterData(img', v, c)[i] == if at <= i < at + k then data[n + (i - at)] else ClusterData(img, v, c)[i])
  }

  /** Path cluster h itself, when the next `k` bytes of the data have overwritten a stretch of it. */
  lemma PieceHere(img0: Image, img: Image, img': Image, v: Vol, c: nat, offset: nat, n: nat, data: seq<byte>, h: nat,
                  at: nat, k: nat)
    requires n + k <= |data| && |img| == |img0| && ClusterWritten(img0, img, v, c, h, offset, n, data)
    requires offset + n == Times(h, ClusterBytes(v)) + at && at + k <= ClusterBytes(v)
    requires FIRST_CLUSTER <= c && Stored(img, img', v, c, at, data, n, k)
    ensures ClusterWritten(img0, img', v, c, h, offset, n + k, data)
  {
  }

  /** Another path cluster, g-th of the path. */
  lemma PieceElsewhere(img0: Image, img: Image, img': Image, v: Vol, c: nat, offset: nat, n: nat, data: seq<byte>,
                       g: nat, h: nat, at: nat, k: nat)
    requires n + k <= |data| && |img'| == |img| == |img0| && ClusterWritten(img0, img, v, c, g, offset, n, data)
    requires offset + n == Times(h, ClusterBytes(v)) + at && at + k <= ClusterBytes(v) && g != h
    requires OnVolume(img, v, c) ==> ClusterData(img', v, c) == ClusterData(img, v, c)
    ensures ClusterWritten(img0, img', v, c, g, offset, n + k, data)
  {
    if g < h { TimesApart(g, h, ClusterBytes(v)); } else { TimesApart(h, g, ClusterBytes(v)); }
  }

  /** One stretch of path cluster h was overwritten by the next `k` bytes of the data. */
  lemma PieceWritten(img0: Image, img: Image, img': Image, v: Vol, path: Chain, offset: nat, n: nat, data: seq<byte>,
                     h: nat, at: nat, k: nat)
    requires n + k <= |data| && Written(img0, img, v, path, offset, n, data) && h < |path|
    requires forall i :: 0 <= i < |path| ==> FIRST_CLUSTER <= path[i]
    requires forall i :: 0 <= i < |path| && i != h ==> path[i] != path[h]
    requires Stored(img, img', v, path[h], at, data, n, k)
    requires offset + n == Times(h, ClusterBytes(v)) + at && at + k <= ClusterBytes(v)
    ensures Written(img0, img', v, path, offset, n + k, data)
  {
    forall g | 0 <= g < |path| ensures ClusterWritten(img0, img', v, path[g], g, offset, n + k, data) {
      assert ClusterWritten(img0, img, v, path[g], g, offset, n, data);
      if g == h {
        PieceHere(img0, img, img', v, path[h], offset, n, data, h, at, k);
      } else {
        OtherClusterUntouched(img, img', v, path[h], path[g]);
        PieceElsewhere(img0, img, img', v, path[g], offset, n, data, g, h, at, k);
      }
    }
    forall c | FIRST_CLUSTER <= c && c !in path ensures ClusterKept(img0, img', v, c) {
      assert ClusterKept(img0, img, v, c);
      assert path[h] in path;
      OtherClusterUntouched(img, img', v, path[h], c);
    }
  }

  /** Changes of the table copies do not concern the data. */
  lemma WrittenUntouched(img0: Image, img: Image, img': Image, b: Bpb, v: Vol, path: Chain, offset: nat, n: nat,
                         data: seq<byte>)
    requires n <= |data| && Written(img0, img, v, path, offset, n, data) && Sound(img, b, v) && |img'| == |img|
    requires forall i :: 0 <= i < |path| ==> FIRST_CLUSTER <= path[i]
    requires forall s :: 0 <= s < |img| && !(v.fatLba <= s < CopyBase(TablesOf(b, v.fatLba), b.fatCount)) ==>
              img'[s] == img[s]
    ensures Written(img0, img', v, path, offset, n, data)
  {
    forall h | 0 <= h < |path| ensures ClusterWritten(img0, img', v, path[h], h, offset, n, data) {
      assert ClusterWritten(img0, img, v, path[h], h, offset, n, data);
      DataUntouched(img, img', b, v, path[h]);
    }
    forall c | FIRST_CLUSTER <= c && c !in path ensures ClusterKept(img0, img', v, c) {
      assert ClusterKept(img0, img, v, c);
      DataUntouched(img, img', b, v, c);
    }
  }

  // ----- Steps of the code

  /** Writes all sectors of a cluster. */
  method StoreCluster(disk: Device, v: Vol, cur: uint16, buf: array<byte>)
    requires FIRST_CLUSTER <= cur && buf.Length == ClusterBytes(v)
    modifies disk`sectors
    ensures OnlyCluster(old(disk.sectors), disk.sectors, v, cur)
    ensures OnVolume(disk.sectors, v, cur) ==> ClusterData(disk.sectors, v, cur) == buf[..]
  {
    ghost var img := disk.sectors;
    var lba := LbaOfCluster(v, cur);
    var q := 0;
    while q < v.spc
      invariant q <= v.spc && |disk.sectors| == |img|
      invariant forall s :: 0 <= s < |img| && !(lba <= s < lba + q) ==> disk.sectors[s] == img[s]
      invariant forall p :: 0 <= p < q && lba + p < |img| ==>
                  disk.sectors[lba + p] == buf[p * SECTOR_SIZE..p * SECTOR_SIZE + SECTOR_SIZE]
    {
      var code := disk.WriteBlock(lba + q, buf, q * SECTOR_SIZE);
      q := q + 1;
    }
    if OnVolume(img, v, cur) {
      forall i | 0 <= i < ClusterBytes(v) ensures ClusterData(disk.sectors, v, cur)[i] == buf[..][i] {
        var p := i / SECTOR_SIZE;
        assert disk.sectors[lba + p] == buf[p * SECTOR_SIZE..p * SECTOR_SIZE + SECTOR_SIZE];
      }
    }
  }

  /** Loads a cluster, overwrites a stretch of it with buffer[n..n + k], and writes it back. */
  method WritePiece(disk: Device, v: Vol, cur: uint16, clusterTemp: array<byte>, at: nat, buffer: array<byte>, n: nat,
                    k: nat,
                    ghost data: seq<byte>)
    requires FIRST_CLUSTER <= cur && clusterTemp.Length == ClusterBytes(v) && clusterTemp != buffer
    requires at + k <= ClusterBytes(v) && n + k <= |data| <= buffer.Length && data == buffer[..|data|]
    modifies disk, clusterTemp
    ensures Stored(old(disk.sectors), disk.sectors, v, cur, at, data, n, k)
  {
    ghost var img := disk.sectors;
    LoadCluster(disk, v, cur, clusterTemp);
    label Loaded:
    CopyBytes(clusterTemp, at, buffer, n, k);
    StoreCluster(disk, v, cur, clusterTemp);
    if OnVolume(img, v, cur) {
      forall i | 0 <= i < ClusterBytes(v)
        ensures ClusterData(disk.sectors, v, cur)[i]
             == if at <= i < at + k then data[n + (i - at)] else ClusterData(img, v, cur)[i]
      {
        assert ClusterData(disk.sectors, v, cur)[i] == clusterTemp[..][i] == clusterTemp[i];
        if at <= i < at + k {
          assert buffer[..|data|][n + (i - at)] == buffer[n + (i - at)];
        } else {
          assert clusterTemp[i] == old@Loaded(clusterTemp[..])[i];
        }
      }
    }
  }

  // ----- The state between the steps

  ghost predicate OutsideTables(b: Bpb, v: Vol, s: nat) {
    s < v.dataLba && !(v.fatLba <= s < CopyBase(TablesOf(b, v.fatLba), b.fatCount))
  }

  /** What the table says: the file's chain, the others, and the clusters taken since f0. */
  ghost predicate TableState(f0: Fat, f: Fat, chains: set<Chain>, ch: Chain, taken: seq<nat>) {
    && Files(f, chains, ch, taken)
    && |FreeSet(f)| + |taken| == |FreeSet(f0)|
    && (AllOnChains(f0, chains) ==> AllOnChains(f, chains + Singletons(taken)))
  }

  /** Sectors before the data region: only the tables change, and they too only once a cluster has been taken. */
  ghost predicate FrontKept(base: Image, img: Image, b: Bpb, v: Vol, taken: seq<nat>) {
    && |img| == |base|
    && (forall s :: 0 <= s < |img| && OutsideTables(b, v, s) ==> img[s] == base[s])
    && (taken == [] ==> forall s :: 0 <= s < |img| && s < v.dataLba ==> img[s] == base[s])
  }

  ghost predicate TablesGoing(base: Image, img: Image, b: Bpb, v: Vol, chains: set<Chain>, ch: Chain, taken: seq<nat>) {
    && Sound(base, b, v) && Sound(img, b, v)
    && TableState(Table(base, b, v), Table(img, b, v), chains, ch, taken)
    && FrontKept(base, img, b, v, taken)
  }

  /** Sector s belongs to a cluster of the path. */
  ghost predicate OnPath(v: Vol, path: Chain, s: nat) {
    exists h ::
      && 0 <= h < |path| && FIRST_CLUSTER <= path[h]
      && ClusterLba(v, path[h]) <= s < ClusterLba(v, path[h]) + v.spc
  }

  /** No sector of the data region changes off the path, whether or not a whole cluster fits there. */
  ghost predicate RestKept(base: Image, img: Image, v: Vol, path: Chain) {
    && |img| == |base|
    && forall s: nat {:trigger OnPath(v, path, s)} ::
         v.dataLba <= s < |img| && !OnPath(v, path, s) ==> img[s] == base[s]
  }

  lemma OnLongerPath(v: Vol, path: Chain, added: nat, s: nat)
    requires OnPath(v, path, s)
    ensures OnPath(v, path + [added], s)
  {
    var h :| && 0 <= h < |path| && FIRST_CLUSTER <= path[h]
             && ClusterLba(v, path[h]) <= s < ClusterLba(v, path[h]) + v.spc;
    assert (path + [added])[h] == path[h];
  }

  lemma RestKeptGrows(base: Image, img: Image, img': Image, v: Vol, path: Chain, added: nat)
    requires RestKept(base, img, v, path) && |img'| == |img|
    requires forall s :: v.dataLba <= s < |img| ==> img'[s] == img[s]
    ensures RestKept(base, img', v, path + [added])
  {
    forall s: nat | v.dataLba <= s < |img'| && !OnPath(v, path + [added], s) ensures img'[s] == base[s] {
      if OnPath(v, path, s) { OnLongerPath(v, path, added, s); }
    }
  }

  lemma RestKeptInCluster(base: Image, img: Image, img': Image, v: Vol, path: Chain, h: nat)
    requires RestKept(base, img, v, path) && h < |path| && FIRST_CLUSTER <= path[h]
    requires OnlyCluster(img, img', v, path[h])
    ensures RestKept(base, img', v, path)
  {
  }

  /** What a write is about: the disk it starts from, the volume, its files, and what goes where. */
  datatype Job = Job(base: Image, b: Bpb, v: Vol, chains: set<Chain>, ch: Chain, offset: nat, data: seq<byte>)

  ghost predicate Going(j: Job, img: Image, taken: seq<nat>, n: nat) {
    && n <= |j.data|
    && TablesGoing(j.base, img, j.b, j.v, j.chains, j.ch, taken)
    && Written(j.base, img, j.v, Path(j.ch, taken), j.offset, n, j.data)
    && RestKept(j.base, img, j.v, Path(j.ch, taken))
  }

  lemma PathClusters(f: Fat, chains: set<Chain>, ch: Chain, taken: seq<nat>)
    requires Files(f, chains, ch, taken)
    ensures forall i :: 0 <= i < |Path(ch, taken)| ==>
              IsCluster(f, EOC, Path(ch, taken)[i]) && f[Path(ch, taken)[i]] != 0
  {
    forall i | 0 <= i < |Path(ch, taken)| ensures IsCluster(f, EOC, Path(ch, taken)[i]) && f[Path(ch, taken)[i]] != 0 {
      PathEntry(f, chains, ch, taken, i);
    }
  }

  ghost function ImageAfterTake(img: Image, b: Bpb, v: Vol, cur: uint16, added: uint16): Image
    requires Usable(img, b, v.fatLba, cur) && added < b.sectorsPerFat * WORDS_PER_SECTOR
  {
    LinkCopies(img, TablesOf(b, v.fatLba), b.fatCount, added, cur)
  }

  lemma TakeImage(img: Image, b: Bpb, v: Vol, cur: uint16, added: uint16)
    requires Sound(img, b, v) && Usable(img, b, v.fatLba, cur) && added < b.sectorsPerFat * WORDS_PER_SECTOR
    ensures var img' := ImageAfterTake(img, b, v, cur, added);
      && |img'| == |img| && Sound(img', b, v)
      && Table(img', b, v) == Update(Table(img, b, v), EOC, added, cur)
      && forall s :: 0 <= s < |img| && !(v.fatLba <= s < CopyBase(TablesOf(b, v.fatLba), b.fatCount)) ==>
           img'[s] == img[s]
  {
    AllCopiesUpdated(img, b, v.fatLba, cur, added, 0);
  }

  lemma TableStateGrows(f0: Fat, f: Fat, g: Fat, chains: set<Chain>, ch: Chain, taken: seq<nat>, cur: nat, added: nat)
    requires TableState(f0, f, chains, ch, taken) && Stops(cur, EOC) && LowestFree(f, added) && added < EOC
    requires g == Update(f, EOC, added, cur)
    ensures TableState(f0, g, chains, ch, taken + [added])
    ensures added !in Path(ch, taken) && FIRST_CLUSTER <= added
    ensures forall c :: c in Path(ch, taken) ==> FIRST_CLUSTER <= c
  {
    TakeCluster(f, chains, ch, taken, added, cur);
    PathClusters(f, chains, ch, taken);
  }

  /** One cluster more at the end of the path. */
  method GrowOne(disk: Device, b: Bpb, v: Vol, marker: uint16, ghost j: Job, ghost taken: seq<nat>, ghost n: nat)
      returns (added: uint16)
    requires b == j.b && v == j.v && Going(j, disk.sectors, taken, n)
    requires Stops(marker, EOC) && |taken| < |FreeSet(Table(j.base, b, v))|
    requires n == 0 || j.offset + n <= Times(|Path(j.ch, taken)|, ClusterBytes(v))
    modifies disk
    ensures Going(j, disk.sectors, taken + [added], n)
  {
    ghost var img, f := disk.sectors, Table(disk.sectors, b, v);
    ghost var e :| e in FreeSet(f);
    assert 0 <= e < Min(EOC, b.sectorsPerFat * WORDS_PER_SECTOR) && FatAt(img, v.fatLba, b.sectorsPerFat)[e] == 0;
    added := GetFreeCluster(disk, b, v.fatLba, marker);
    TakeImage(img, b, v, marker, added);
    GoingGrows(j, img, disk.sectors, taken, n, marker, added);
  }

  lemma GoingGrows(j: Job, img: Image, img': Image, taken: seq<nat>, n: nat, cur: nat, added: nat)
    requires Going(j, img, taken, n)
    requires Stops(cur, EOC) && LowestFree(Table(img, j.b, j.v), added) && added < EOC
    requires n == 0 || j.offset + n <= Times(|Path(j.ch, taken)|, ClusterBytes(j.v))
    requires |img'| == |img| && Sound(img', j.b, j.v)
    requires Table(img', j.b, j.v) == Update(Table(img, j.b, j.v), EOC, added, cur)
    requires forall s :: 0 <= s < |img| && !(j.v.fatLba <= s < CopyBase(TablesOf(j.b, j.v.fatLba), j.b.fatCount)) ==>
               img'[s] == img[s]
    ensures Going(j, img', taken + [added], n)
  {
    TablesGrow(j.base, img, img', j.b, j.v, j.chains, j.ch, taken, cur, added);
    DataGrows(j, img, img', taken, n, added);
    PathAppend(j.ch, taken, added);
    RestKeptGrows(j.base, img, img', j.v, Path(j.ch, taken), added);
  }

  lemma DataGrows(j: Job, img: Image, img': Image, taken: seq<nat>, n: nat, added: nat)
    requires n <= |j.data| && Written(j.base, img, j.v, Path(j.ch, taken), j.offset, n, j.data)
    requires Sound(img, j.b, j.v) && |img'| == |img|
    requires forall c :: c in Path(j.ch, taken) ==> FIRST_CLUSTER <= c
    requires forall s :: 0 <= s < |img| && !(j.v.fatLba <= s < CopyBase(TablesOf(j.b, j.v.fatLba), j.b.fatCount)) ==>
               img'[s] == img[s]
    requires added !in Path(j.ch, taken) && FIRST_CLUSTER <= added
    requires n == 0 || j.offset + n <= Times(|Path(j.ch, taken)|, ClusterBytes(j.v))
    ensures Written(j.base, img', j.v, Path(j.ch, taken + [added]), j.offset, n, j.data)
  {
    PathAppend(j.ch, taken, added);
    var path := Path(j.ch, taken);
    assert forall i :: 0 <= i < |path| ==> path[i] in path;
    WrittenGrows(j.base, img, img', j.b, j.v, Path(j.ch, taken), added, j.offset, n, j.data);
  }

  lemma TablesGrow(base: Image, img: Image, img': Image, b: Bpb, v: Vol, chains: set<Chain>, ch: Chain, taken: seq<nat>,
                   cur: nat, added: nat)
    requires TablesGoing(base, img, b, v, chains, ch, taken)
    requires Stops(cur, EOC) && LowestFree(Table(img, b, v), added) && added < EOC
    requires |img'| == |img| && Sound(img', b, v) && Table(img', b, v) == Update(Table(img, b, v), EOC, added, cur)
    requires forall s :: 0 <= s < |img| && !(v.fatLba <= s < CopyBase(TablesOf(b, v.fatLba), b.fatCount)) ==>
              img'[s] == img[s]
    ensures TablesGoing(base, img', b, v, chains, ch, taken + [added])
    ensures added !in Path(ch, taken) && FIRST_CLUSTER <= added
    ensures forall c :: c in Path(ch, taken) ==> FIRST_CLUSTER <= c
  {
    TableStateGrows(Table(base, b, v), Table(img, b, v), Table(img', b, v), chains, ch, taken, cur, added);
  }

  lemma PathAppend(ch: Chain, taken: seq<nat>, added: nat)
    ensures Path(ch, taken + [added]) == Path(ch, taken) + [added]
  {
  }

  lemma WrittenGrows(base: Image, img: Image, img': Image, b: Bpb, v: Vol, path: Chain, added: nat, offset: nat,
                     n: nat, data: seq<byte>)
    requires n <= |data| && Written(base, img, v, path, offset, n, data) && Sound(img, b, v) && |img'| == |img|
    requires forall i :: 0 <= i < |path| ==> FIRST_CLUSTER <= path[i]
    requires forall s :: 0 <= s < |img| && !(v.fatLba <= s < CopyBase(TablesOf(b, v.fatLba), b.fatCount)) ==>
              img'[s] == img[s]
    requires added !in path && FIRST_CLUSTER <= added
    requires n == 0 || offset + n <= Times(|path|, ClusterBytes(v))
    ensures Written(base, img', v, path + [added], offset, n, data)
  {
    WrittenUntouched(base, img, img', b, v, path, offset, n, data);
    PathGrows(base, img', v, path, added, offset, n, data);
  }

  /** The path reaches cluster h, and beyond the file's chain no further. */
  ghost predicate At(j: Job, taken: seq<nat>, h: nat, cur: nat) {
    && |Path(j.ch, taken)| == Max(|j.ch|, h + 1)
    && Path(j.ch, taken)[h] == cur
  }

  /** How far a write has come: the clusters taken, the bytes written, and the clusters of the path left behind. */
  datatype Stage = Stage(taken: seq<nat>, n: nat, h: nat)

  ghost predicate Reached(j: Job, s: Stage, img: Image, cur: nat) {
    Going(j, img, s.taken, s.n) && At(j, s.taken, s.h, cur)
  }

  /** The next byte lies at or behind the start of the next cluster of the path. */
  ghost predicate Ahead(j: Job, s: Stage) {
    s.n == 0 || j.offset + s.n <= Times(s.h + 1, ClusterBytes(j.v))
  }

  /** The entry of the current cluster leads on inside the file, and otherwise is a value where the walk stops. */
  lemma EntryAt(j: Job, img: Image, s: Stage, cur: uint16)
    requires Reached(j, s, img, cur)
    ensures var next := LinksOf(img, j.v)[cur];
      && (Stops(next, EOC) <==> |j.ch| <= s.h + 1)
      && (s.h + 1 < |j.ch| ==> Reached(j, s.(h := s.h + 1), img, next))
  {
    PathEntry(Table(img, j.b, j.v), j.chains, j.ch, s.taken, s.h);
    LinkOfTable(img, j.b, j.v, cur);
  }

  /** One hop; at the end of the chain a free cluster is taken, but nothing is made to lead to it. */
  method HopOrGrow(disk: Device, b: Bpb, v: Vol, buf: array<byte>, from: uint16, ghost j: Job, ghost s: Stage)
      returns (cur: uint16, grew: bool, ghost s': Stage)
    requires buf.Length == SECTOR_SIZE && b == j.b && v == j.v
    requires Reached(j, s, disk.sectors, from) && Ahead(j, s)
    requires s.h + 1 - |j.ch| < |FreeSet(Table(j.base, b, v))|
    modifies disk, buf
    ensures Reached(j, s', disk.sectors, cur) && s'.n == s.n && s'.h == s.h + 1
    ensures grew <==> |j.ch| <= s'.h
  {
    EntryAt(j, disk.sectors, s, from);
    cur := NextCluster(disk, v, buf, from);
    s', grew := s.(h := s.h + 1), false;
    if cur >= EOC || cur < FIRST_CLUSTER {
      cur, s' := GrowAt(disk, b, v, cur, j, s);
      grew := true;
    }
  }

  method GrowAt(disk: Device, b: Bpb, v: Vol, marker: uint16, ghost j: Job, ghost s: Stage)
      returns (cur: uint16, ghost s': Stage)
    requires b == j.b && v == j.v && Going(j, disk.sectors, s.taken, s.n) && Ahead(j, s)
    requires |j.ch| <= |Path(j.ch, s.taken)| == s.h + 1
    requires Stops(marker, EOC) && |s.taken| < |FreeSet(Table(j.base, b, v))|
    modifies disk
    ensures Reached(j, s', disk.sectors, cur) && s'.n == s.n && s'.h == s.h + 1
  {
    cur := GrowOne(disk, b, v, marker, j, s.taken, s.n);
    ghost var added: nat := cur;
    PathAppend(j.ch, s.taken, added);
    s' := Stage(s.taken + [added], s.n, s.h + 1);
  }

  /** The inner loop: `count` hops, each of which succeeds, because the chain is as good as extended where it ends. */
  method GrowHops(disk: Device, b: Bpb, v: Vol, buf: array<byte>, from: uint16, count: nat, ghost j: Job,
                  ghost s: Stage)
      returns (cur: uint16, grew: bool, ghost s': Stage)
    requires buf.Length == SECTOR_SIZE && b == j.b && v == j.v
    requires Reached(j, s, disk.sectors, from) && (s.n == 0 || (count == 1 && Ahead(j, s)))
    requires s.h + count - |j.ch| < |FreeSet(Table(j.base, b, v))|
    modifies disk, buf
    ensures Reached(j, s', disk.sectors, cur) && s'.n == s.n && s'.h == s.h + count
    ensures grew <==> 0 < count && |j.ch| <= s'.h
  {
    cur, grew, s' := from, false, s;
    var i := 0;
    while i < count
      invariant i <= count && s'.n == s.n && s'.h == s.h + i
      invariant Reached(j, s', disk.sectors, cur)
      invariant grew <==> 0 < i && |j.ch| <= s'.h
    {
      var more;
      cur, more, s' := HopOrGrow(disk, b, v, buf, cur, j, s');
      grew := grew || more;
      i := i + 1;
    }
  }

  /** Writing a stretch of the current cluster keeps the tables and advances the data. */
  lemma PieceGoing(j: Job, img: Image, img': Image, taken: seq<nat>, n: nat, h: nat, cur: nat, at: nat, k: nat)
    requires Going(j, img, taken, n) && At(j, taken, h, cur) && n + k <= |j.data|
    requires j.offset + n == Times(h, ClusterBytes(j.v)) + at && at + k <= ClusterBytes(j.v)
    requires FIRST_CLUSTER <= cur && Stored(img, img', j.v, cur, at, j.data, n, k)
    ensures Going(j, img', taken, n + k)
  {
    var f, path := Table(img, j.b, j.v), Path(j.ch, taken);
    assert forall i :: 0 <= i < |path| ==> FIRST_CLUSTER <= path[i] by { PathClusters(f, j.chains, j.ch, taken); }
    forall i | 0 <= i < |path| && i != h ensures path[i] != path[h] {
      if path[i] == path[h] { PathInjective(f, j.chains, j.ch, taken, i, h); }
    }
    PieceWritten(j.base, img, img', j.v, path, j.offset, n, j.data, h, at, k);
    RestKeptInCluster(j.base, img, img', j.v, path, h);
    TableUntouched(img, img', j.b, j.v, cur);
    assert j.v.dataLba <= ClusterLba(j.v, cur);
  }

  lemma PieceReached(j: Job, img: Image, img': Image, s: Stage, cur: nat, at: nat, k: nat)
    requires Reached(j, s, img, cur) && s.n + k <= |j.data|
    requires j.offset + s.n == Times(s.h, ClusterBytes(j.v)) + at && at + k <= ClusterBytes(j.v)
    requires FIRST_CLUSTER <= cur && Stored(img, img', j.v, cur, at, j.data, s.n, k)
    ensures Reached(j, s.(n := s.n + k), img', cur)
  {
    PieceGoing(j, img, img', s.taken, s.n, s.h, cur, at, k);
  }
}
