/**
 What a volume means while write_fat16 runs: its files, its free clusters, and how one table or data write changes
 them.
 */
module Fat16State {
  import opened Bytes
  import opened Bpb
  import opened Disk
  import opened FatChain
  import opened FatTable
  import opened FreeCluster
  import opened Volume

  /** A volume with 512-byte sectors whose tables lie on the disk, before the data region. */
  ghost predicate Sound(img: Image, b: Bpb, v: Vol) {
    && 0 < v.spc && 1 <= b.sectorsPerFat && 1 <= b.fatCount
    && v.fatLba + LINK_SECTORS <= |img| && v.fatLba + b.sectorsPerFat <= |img|
    && CopyBase(TablesOf(b, v.fatLba), b.fatCount) <= Min(|img|, v.dataLba)
  }

  /**
   A boot sector that is accepted, with 512-byte sectors, gives a sound volume, if the disk holds its data region and
   the sectors that a cluster number can select in the table. The regions are where the parsed block says.
   */
  lemma ParsedSound(img: Image, s: Sector, startSect: uint32)
    requires ParseBpb(s, startSect).Some? && ParseBpb(s, startSect).value.bytesPerSect == SECTOR_SIZE
    requires var b := ParseBpb(s, startSect).value;
      startSect + DataOffset(b) <= |img| && startSect + b.reservedSectors + LINK_SECTORS <= |img|
    ensures var b := ParseBpb(s, startSect).value; var v := VolOf(b, startSect);
      && Sound(img, b, v)
      && (v.dataLba < TWO_32 ==> v.fatLba == b.fatLba && v.dataLba == b.dataLba)
  {
    LayoutSound(img, ParseBpb(s, startSect).value, startSect);
    if startSect + DataOffset(ParseBpb(s, startSect).value) < TWO_32 { ParseRegionsPlain(s, startSect); }
  }

  /** The layout computed from a parameter block has the tables before the data region. */
  lemma LayoutSound(img: Image, b: Bpb, startSect: nat)
    requires b.bytesPerSect == SECTOR_SIZE && 0 < b.sectPerClust && 0 < b.fatCount && 0 < b.sectorsPerFat
    requires startSect + DataOffset(b) <= |img| && startSect + b.reservedSectors + LINK_SECTORS <= |img|
    ensures Sound(img, b, VolOf(b, startSect))
  {
    CopyBaseIs(TablesOf(b, startSect + b.reservedSectors), b.fatCount);
    assert b.fatCount * b.sectorsPerFat == ProductOfFields(b.fatCount, b.sectorsPerFat);
  }

  /** The first copy of the table, which the hops read and get_free_cluster searches. */
  ghost function Table(img: Image, b: Bpb, v: Vol): (f: Fat)
    requires Sound(img, b, v)
    ensures |f| == b.sectorsPerFat * WORDS_PER_SECTOR
  {
    FatAt(img, v.fatLba, b.sectorsPerFat)
  }

  lemma LinkOfTable(img: Image, b: Bpb, v: Vol, c: uint16)
    requires Sound(img, b, v) && c < b.sectorsPerFat * WORDS_PER_SECTOR
    ensures LinksOf(img, v)[c] == Table(img, b, v)[c]
  {
  }

  /** Free clusters whose number is no end marker. */
  ghost function FreeSet(f: Fat): set<nat> {
    set e | 0 <= e < |f| && e < EOC && f[e] == 0
  }

  ghost function Singletons(taken: seq<nat>): set<Chain> {
    set i | 0 <= i < |taken| :: [taken[i]]
  }

  /**
   The files: among the chains of the table are `chains`, one of them is ch, and one chain of a single cluster for each
   cluster in `taken`.
   */
  ghost predicate Files(f: Fat, chains: set<Chain>, ch: Chain, taken: seq<nat>) {
    && 2 <= |f| && f[0] != 0 && f[1] != 0
    && ch in chains
    && Chained(f, EOC, chains + Singletons(taken))
    && (forall i :: 0 <= i < |taken| ==> [taken[i]] !in chains)
    && (forall i, j :: 0 <= i < j < |taken| ==> taken[i] != taken[j])
  }

  /** The clusters that the write goes through: first those of the file, then those taken. */
  function Path(ch: Chain, taken: seq<nat>): Chain {
    ch + taken
  }

  lemma TakenOffFile(f: Fat, chains: set<Chain>, ch: Chain, taken: seq<nat>)
    requires Files(f, chains, ch, taken)
    ensures forall i, k :: 0 <= i < |ch| && 0 <= k < |taken| ==> ch[i] != taken[k]
    ensures forall i, j :: 0 <= i < j < |ch| ==> ch[i] != ch[j]
  {
    var all := chains + Singletons(taken);
    forall i, k | 0 <= i < |ch| && 0 <= k < |taken| ensures ch[i] != taken[k] {
      var single := [taken[k]];
      assert single in all && ch in all && single != ch;
      assert Meet(ch, i, single, 0) ==> ch == single;
    }
    forall i, j | 0 <= i < j < |ch| ensures ch[i] != ch[j] {
      assert Meet(ch, i, ch, j) ==> i == j;
    }
  }

  lemma PathInjective(f: Fat, chains: set<Chain>, ch: Chain, taken: seq<nat>, i: nat, j: nat)
    requires Files(f, chains, ch, taken) && i < |Path(ch, taken)| && j < |Path(ch, taken)|
    requires Path(ch, taken)[i] == Path(ch, taken)[j]
    ensures i == j
  {
    TakenOffFile(f, chains, ch, taken);
  }

  /** The entry of a path cluster leads to the next one inside the file, and is an end marker otherwise. */
  lemma PathEntry(f: Fat, chains: set<Chain>, ch: Chain, taken: seq<nat>, h: nat)
    requires Files(f, chains, ch, taken) && h < |Path(ch, taken)|
    ensures IsCluster(f, EOC, Path(ch, taken)[h])
    ensures h + 1 < |ch| ==> f[Path(ch, taken)[h]] == ch[h + 1] && IsCluster(f, EOC, ch[h + 1])
    ensures |ch| <= h + 1 ==> EOC <= f[Path(ch, taken)[h]]
  {
    var all := chains + Singletons(taken);
    if h < |ch| {
      ChainEntry(f, EOC, ch, h);
      if h + 1 < |ch| { ChainEntry(f, EOC, ch, h + 1); }
    } else {
      assert [taken[h - |ch|]] in all;
      ChainEntry(f, EOC, [taken[h - |ch|]], 0);
    }
  }

  /** Taking the lowest free cluster without a predecessor. */
  lemma TakeCluster(f: Fat, chains: set<Chain>, ch: Chain, taken: seq<nat>, added: nat, cur: nat)
    requires Files(f, chains, ch, taken) && LowestFree(f, added) && added < EOC && Stops(cur, EOC)
    ensures Files(Update(f, EOC, added, cur), chains, ch, taken + [added])
    ensures AllOnChains(f, chains + Singletons(taken)) ==>
              AllOnChains(Update(f, EOC, added, cur), chains + Singletons(taken + [added]))
    ensures FreeSet(Update(f, EOC, added, cur)) == FreeSet(f) - {added} && added in FreeSet(f)
  {
    var all := chains + Singletons(taken);
    assert 2 <= added;
    UpdateNewChain(f, EOC, all, added, cur);
    assert Singletons(taken + [added]) == Singletons(taken) + {[added]} by {
      assert (taken + [added])[|taken|] == added;
      assert forall i :: 0 <= i < |taken| ==> (taken + [added])[i] == taken[i];
    }
    assert all + {[added]} == chains + Singletons(taken + [added]);
    forall i | 0 <= i < |taken| ensures taken[i] != added {
      assert [taken[i]] in all;
    }
  }

  // ----- Writes to the disk

  /** Changing sectors of the table copies only leaves every cluster's data alone. */
  lemma DataUntouched(img: Image, img': Image, b: Bpb, v: Vol, c: nat)
    requires Sound(img, b, v) && |img'| == |img| && FIRST_CLUSTER <= c
    requires forall s :: 0 <= s < |img| && !(v.fatLba <= s < CopyBase(TablesOf(b, v.fatLba), b.fatCount)) ==>
              img'[s] == img[s]
    ensures OnVolume(img, v, c) ==> ClusterData(img', v, c) == ClusterData(img, v, c)
  {
    var lba := ClusterLba(v, c);
    assert v.dataLba <= lba;
    assert forall s :: lba <= s < |img| ==> img'[s] == img[s];
  }

  /** img' differs from img at most in the sectors of cluster c. */
  ghost predicate OnlyCluster(img: Image, img': Image, v: Vol, c: nat)
    requires FIRST_CLUSTER <= c
  {
    && |img'| == |img|
    && forall s :: 0 <= s < |img| && !(ClusterLba(v, c) <= s < ClusterLba(v, c) + v.spc) ==> img'[s] == img[s]
  }

  lemma OtherClusterUntouched(img: Image, img': Image, v: Vol, c: nat, d: nat)
    requires FIRST_CLUSTER <= c && FIRST_CLUSTER <= d && c != d && OnlyCluster(img, img', v, c)
    ensures OnVolume(img, v, d) ==> ClusterData(img', v, d) == ClusterData(img, v, d)
  {
    if c < d { ClustersApart(v, c, d); } else { ClustersApart(v, d, c); }
    assert OnVolume(img, v, d) ==>
        forall s :: ClusterLba(v, d) <= s < ClusterLba(v, d) + v.spc ==> img'[s] == img[s];
  }

  lemma TableUntouched(img: Image, img': Image, b: Bpb, v: Vol, c: nat)
    requires Sound(img, b, v) && FIRST_CLUSTER <= c && OnlyCluster(img, img', v, c)
    ensures Sound(img', b, v) && Table(img', b, v) == Table(img, b, v)
  {
    assert v.dataLba <= ClusterLba(v, c);
    var t := TablesOf(b, v.fatLba);
    CopiesApart(t, 0, b.fatCount);
    SameSectorsSameFat(img, img', v.fatLba, b.sectorsPerFat);
  }
}
