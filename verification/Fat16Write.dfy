/** write_fat16 of fat16.c, including its growth past the end of the chain. */
module Fat16Write {
  import opened Bytes
  import opened Bpb
  import opened Disk
  import opened FatChain
  import opened FatTable
  import opened FreeCluster
  import opened Products
  import opened Volume
  import opened Fat16File
  import opened Fat16State
  import opened Fat16WriteSteps

  /** Writes the next piece of the buffer into the current cluster. */
  method StorePiece(disk: Device, v: Vol, cur: uint16, clusterTemp: array<byte>, at: nat, buffer: array<byte>, n: nat,
                    k: nat, ghost j: Job, ghost s: Stage)
    requires v == j.v && Reached(j, s, disk.sectors, cur) && s.n == n
    requires clusterTemp.Length == ClusterBytes(v) && clusterTemp != buffer
    requires |j.data| <= buffer.Length && j.data == buffer[..|j.data|] && n + k <= |j.data|
    requires at + k <= ClusterBytes(v) && j.offset + n == Times(s.h, ClusterBytes(v)) + at
    modifies disk, clusterTemp
    ensures Reached(j, s.(n := n + k), disk.sectors, cur)
  {
    PathClusters(Table(disk.sectors, j.b, v), j.chains, j.ch, s.taken);
    ghost var img := disk.sectors;
    WritePiece(disk, v, cur, clusterTemp, at, buffer, n, k, j.data);
    PieceReached(j, img, disk.sectors, s, cur, at, k);
  }

  /** `need` clusters, and no fewer, hold the bytes up to the end of the range. */
  ghost predicate Spans(j: Job, need: nat) {
    0 < need && Times(need - 1, ClusterBytes(j.v)) < j.offset + |j.data| <= Times(need, ClusterBytes(j.v))
  }

  /** A write: what it is about, the clusters it reaches, and the fields of the file before it. */
  datatype Plan = Plan(j: Job, need: nat, offset: uint32, size: nat, dirtyBit: nat)

  /** The clusters that the range reaches. */
  function Needed(v: Vol, offset: nat, size: nat): (need: nat)
    requires 0 < v.spc && 0 < size
    ensures 0 < need
  {
    (offset + size - 1) / ClusterBytes(v) + 1
  }

  lemma NeededSpans(j: Job)
    requires 0 < j.v.spc && j.data != []
    ensures Spans(j, Needed(j.v, j.offset, |j.data|))
  {
    DivMod(j.offset + |j.data| - 1, ClusterBytes(j.v));
  }

  /**
   The write is over: all of the data has gone somewhere, and `taken` are the clusters that the file's chain lacked.
   */
  ghost predicate Done(j: Job, img: Image, taken: seq<nat>) {
    && 0 < j.v.spc && j.data != [] && Going(j, img, taken, |j.data|)
    && if taken == [] then j.offset + |j.data| <= Times(|j.ch|, ClusterBytes(j.v)) else Spans(j, |j.ch| + |taken|)
  }

  lemma SpansOnce(j: Job, a: nat, b: nat)
    requires Spans(j, a) && Spans(j, b)
    ensures a == b
  {
    if a < b && a < b - 1 { TimesApart(a, b - 1, ClusterBytes(j.v)); }
    if b < a && b < a - 1 { TimesApart(b, a - 1, ClusterBytes(j.v)); }
  }

  /** In numbers: as many clusters are taken as the chain lacks of those that the range reaches. */
  lemma DoneNeeded(j: Job, img: Image, taken: seq<nat>)
    requires Done(j, img, taken)
    ensures |j.ch| + |taken| == Max(|j.ch|, Needed(j.v, j.offset, |j.data|))
  {
    var need := Needed(j.v, j.offset, |j.data|);
    NeededSpans(j);
    if taken == [] {
      if |j.ch| < need - 1 { TimesApart(|j.ch|, need - 1, ClusterBytes(j.v)); }
    } else {
      SpansOnce(j, need, |j.ch| + |taken|);
    }
  }

  lemma SpansDone(j: Job, img: Image, taken: seq<nat>, need: nat)
    requires 0 < j.v.spc && j.data != [] && Going(j, img, taken, |j.data|) && Spans(j, need)
    requires |j.ch| + |taken| == Max(|j.ch|, need)
    ensures Done(j, img, taken)
  {
    if need < |j.ch| { TimesApart(need, |j.ch|, ClusterBytes(j.v)); }
  }

  /** There are enough free clusters for what the file's chain lacks. */
  ghost predicate Feasible(p: Plan) {
    && Spans(p.j, p.need) && Sound(p.j.base, p.j.b, p.j.v)
    && p.need - |p.j.ch| <= |FreeSet(Table(p.j.base, p.j.b, p.j.v))|
  }

  /** Before the next piece: `count` hops are ahead, and the piece starts at byte `at` of its cluster. */
  ghost predicate Due(j: Job, s: Stage, count: nat, at: nat) {
    && s.n < |j.data| && at < ClusterBytes(j.v)
    && j.offset + s.n == Times(s.h + count, ClusterBytes(j.v)) + at
    && (s.n == 0 || (count == 1 && at == 0))
  }

  /** How many clusters lie before a position, and how far into its cluster it is. */
  method Locate(offset: nat, cb: nat) returns (clusterCount: nat, offsetInCluster: nat)
    requires 0 < cb
    ensures offset == Times(clusterCount, cb) + offsetInCluster && offsetInCluster < cb
  {
    clusterCount, offsetInCluster := offset / cb, offset % cb;
    DivMod(offset, cb);
  }

  /** The next piece ends at the end of the cluster, or it is the last. */
  lemma DueNext(j: Job, s: Stage, count: nat, at: nat, need: nat, s': Stage)
    requires Due(j, s, count, at) && Spans(j, need) && s'.h == s.h + count
    requires s'.n == s.n + Min(|j.data| - s.n, ClusterBytes(j.v) - at)
    ensures s.n < s'.n <= |j.data| && at + (s'.n - s.n) <= ClusterBytes(j.v) && s'.h < need
    ensures s.n == 0 || (count == 1 && Ahead(j, s))
    ensures s'.n < |j.data| ==> Due(j, s', 1, 0)
    ensures s'.n == |j.data| ==> s'.h + 1 == need
  {
    var q, cb := s'.h, ClusterBytes(j.v);
    if need < q + 1 { TimesApart(need - 1, q, cb); }
    if q + 1 < need { TimesApart(q, need - 1, cb); }
  }

  /** The buffers of a write: one sector, one cluster, and the caller's, which holds the data. */
  ghost predicate Buffers(j: Job, singleCluster: array<byte>, clusterTemp: array<byte>, buffer: array<byte>)
    reads buffer
  {
    && singleCluster.Length == SECTOR_SIZE && clusterTemp.Length == ClusterBytes(j.v)
    && clusterTemp != buffer && singleCluster != buffer
    && |j.data| <= buffer.Length && j.data == buffer[..|j.data|]
  }

  /** One round on the disk: the hops to the next cluster of the path, and the piece that goes there. */
  method WriteRound(disk: Device, b: Bpb, v: Vol, singleCluster: array<byte>, clusterTemp: array<byte>, from: uint16,
                    count: nat, at: nat, buffer: array<byte>, n: nat, targetSize: nat, ghost p: Plan, ghost s: Stage)
      returns (cur: uint16, grew: bool, ghost s': Stage)
    requires b == p.j.b && v == p.j.v && Feasible(p) && Due(p.j, s, count, at) && s.n == n
    requires targetSize == Min(|p.j.data| - n, ClusterBytes(v) - at)
    requires Reached(p.j, s, disk.sectors, from) && Buffers(p.j, singleCluster, clusterTemp, buffer)
    modifies disk, singleCluster, clusterTemp
    ensures Reached(p.j, s', disk.sectors, cur) && s'.n == n + targetSize && s'.h == s.h + count
    ensures grew <==> 0 < count && |p.j.ch| <= s'.h
  {
    DueNext(p.j, s, count, at, p.need, Stage([], n + targetSize, s.h + count));
    cur, grew, s' := GrowHops(disk, b, v, singleCluster, from, count, p.j, s);
    StorePiece(disk, v, cur, clusterTemp, at, buffer, n, targetSize, p.j, s');
    s' := s'.(n := n + targetSize);
  }

  /** Adding in two steps modulo 2^32. */
  lemma AddWraps(offset: uint32, n: nat, k: nat)
    ensures ((offset + n) % TWO_32 + k) % TWO_32 == (offset + (n + k)) % TWO_32
    ensures (offset + 0) % TWO_32 == offset
  {
  }

  /** The size the node has after n bytes were written: the number written, not the position reached. */
  function SizeAfter(size: nat, n: nat): nat {
    if n == 0 then size else Max(size, n)
  }

  /**
   That is the end of the file, if and only if the write began at the start of the file or ended inside its old size.
   */
  lemma SizeRight(size: nat, offset: nat, n: nat)
    requires 0 < n
    ensures SizeAfter(size, n) == Max(size, offset + n) <==> offset == 0 || offset + n <= size
  {
  }

  /** The fields of the file after the rounds so far. */
  ghost predicate Booked(file: File, p: Plan, s: Stage)
    reads file, file.node
  {
    && file.offset == (p.offset + s.n) % TWO_32
    && file.node.size == SizeAfter(p.size, s.n)
    && file.node.dirtyBit == if |p.j.ch| <= s.h then 1 else p.dirtyBit
  }

  /** The bookkeeping after a piece. */
  method Account(file: File, n: nat, k: nat, grew: bool, ghost p: Plan, ghost s: Stage, ghost s': Stage)
    requires 0 < k && s.n == n && s'.n == n + k && s.h <= s'.h && Booked(file, p, s)
    requires grew <==> s.h < s'.h && |p.j.ch| <= s'.h
    modifies file, file.node`size, file.node`dirtyBit
    ensures Booked(file, p, s')
  {
    if grew {
      file.node.dirtyBit := 1;
    }
    AddWraps(p.offset, n, k);
    file.offset := (file.offset + k) % TWO_32;
    file.node.size := Max(file.node.size, n + k);
  }

  /** The volume that the file is on. */
  ghost predicate JobOn(j: Job, node: VfsNode) {
    && node.bpb.bytesPerSect == SECTOR_SIZE && 0 < node.bpb.sectPerClust
    && j.b == node.bpb && j.v == node.Volume()
  }

  /** One round of the loop with its bookkeeping. */
  method Round(file: File, singleCluster: array<byte>, clusterTemp: array<byte>, from: uint16, count: nat, at: nat,
               buffer: array<byte>, n: nat, size: nat, ghost p: Plan, ghost s: Stage)
      returns (cur: uint16, n': nat, ghost s': Stage)
    requires JobOn(p.j, file.node) && Feasible(p) && Due(p.j, s, count, at) && s.n == n && |p.j.data| == size
    requires Reached(p.j, s, file.node.disk.sectors, from) && Buffers(p.j, singleCluster, clusterTemp, buffer)
    requires Booked(file, p, s)
    modifies file, file.node`size, file.node`dirtyBit, file.node.disk, singleCluster, clusterTemp
    ensures n < n' <= size && s'.n == n' && Reached(p.j, s', file.node.disk.sectors, cur) && Booked(file, p, s')
    ensures n' < size ==> Due(p.j, s', 1, 0)
    ensures n' == size ==> s'.h + 1 == p.need
  {
    var targetSize := Min(size - n, ClusterBytes(file.node.Volume()) - at);
    var grew;
    cur, grew, s' := WriteRound(file.node.disk, file.node.bpb, file.node.Volume(), singleCluster, clusterTemp, from,
                                count, at, buffer, n, targetSize, p, s);
    DueNext(p.j, s, count, at, p.need, s');
    Account(file, n, targetSize, grew, p, s, s');
    n' := n + targetSize;
  }

  /** The loop over clusters, from the first cluster of the path on. */
  method WriteLoop(file: File, singleCluster: array<byte>, clusterTemp: array<byte>, start: uint16, hops: nat, at: nat,
                   buffer: array<byte>, size: nat, ghost p: Plan)
      returns (n: nat, ghost s: Stage)
    requires JobOn(p.j, file.node) && Feasible(p) && Due(p.j, Stage([], 0, 0), hops, at) && |p.j.data| == size
    requires Reached(p.j, Stage([], 0, 0), file.node.disk.sectors, start)
    requires Buffers(p.j, singleCluster, clusterTemp, buffer) && Booked(file, p, Stage([], 0, 0))
    modifies file, file.node`size, file.node`dirtyBit, file.node.disk, singleCluster, clusterTemp
    ensures n == size == s.n && s.h + 1 == p.need && Booked(file, p, s)
    ensures exists cur :: Reached(p.j, s, file.node.disk.sectors, cur)
  {
    var clusterCount, offsetInCluster, cur := hops, at, start;
    n, s := 0, Stage([], 0, 0);
    while true
      invariant Reached(p.j, s, file.node.disk.sectors, cur) && Booked(file, p, s)
      invariant Due(p.j, s, clusterCount, offsetInCluster) && s.n == n
      decreases size - n
    {
      cur, n, s := Round(file, singleCluster, clusterTemp, cur, clusterCount, offsetInCluster, buffer, n, size, p, s);
      if n >= size {
        return;
      }
      clusterCount, offsetInCluster := 1, 0;
    }
  }

  /**
   Writes through the clusters of a file, from its first cluster `start` on. Whatever of the range lies behind the end
   of the chain goes to free clusters, of which there must be enough.
   */
  method WriteClusters(file: File, start: uint16, buffer: array<byte>, size: nat, ghost p: Plan)
      returns (n: nat, ghost s: Stage)
    requires JobOn(p.j, file.node) && Feasible(p) && p.j.offset == p.offset && Booked(file, p, Stage([], 0, 0))
    requires 0 < size <= buffer.Length && p.j.data == buffer[..size]
    requires Reached(p.j, Stage([], 0, 0), file.node.disk.sectors, start)
    modifies file, file.node`size, file.node`dirtyBit, file.node.disk
    ensures n == size == s.n && s.h + 1 == p.need && Booked(file, p, s)
    ensures Done(p.j, file.node.disk.sectors, s.taken)
  {
    var clusterCount, offsetInCluster := Locate(file.offset, ClusterBytes(file.node.Volume()));
    var singleCluster := new byte[SECTOR_SIZE];
    var clusterTemp := new byte[ClusterBytes(file.node.Volume())];
    n, s := WriteLoop(file, singleCluster, clusterTemp, start, clusterCount, offsetInCluster, buffer, size, p);
    SpansDone(p.j, file.node.disk.sectors, s.taken, p.need);
  }

  // ----- The whole operation

  /** The chains `chains` are in the table, and no cluster number that is reserved looks free. */
  ghost predicate Filed(f: Fat, chains: set<Chain>) {
    2 <= |f| && f[0] != 0 && f[1] != 0 && Chained(f, EOC, chains)
  }

  /** Nothing has been written. */
  lemma GoingStarts(j: Job)
    requires Sound(j.base, j.b, j.v) && Filed(Table(j.base, j.b, j.v), j.chains) && j.ch in j.chains
    ensures Going(j, j.base, [], 0)
    ensures Path(j.ch, []) == j.ch
  {
    assert Path(j.ch, []) == j.ch;
    assert j.chains + Singletons([]) == j.chains;
  }

  lemma FreeSetShrinks(f: Fat, added: nat, cur: nat)
    requires added < |f| && f[added] == 0 && added < EOC && Stops(cur, EOC)
    ensures |FreeSet(Update(f, EOC, added, cur))| == |FreeSet(f)| - 1
  {
    assert FreeSet(Update(f, EOC, added, cur)) == FreeSet(f) - {added};
  }

  /** What the first cluster of an empty file does to the volume. */
  lemma FirstClusterTaken(img: Image, b: Bpb, v: Vol, chains: set<Chain>, marker: uint16, added: uint16)
    requires Sound(img, b, v) && Filed(Table(img, b, v), chains) && Stops(marker, EOC)
    requires LowestFree(Table(img, b, v), added) && added < EOC
    ensures var img' := ImageAfterTake(img, b, v, marker, added);
      && Sound(img', b, v) && Filed(Table(img', b, v), chains + {[added]}) && [added] !in chains
      && |FreeSet(Table(img', b, v))| == |FreeSet(Table(img, b, v))| - 1
  {
    var f := Table(img, b, v);
    assert 2 <= added;
    TakeImage(img, b, v, marker, added);
    UpdateNewChain(f, EOC, chains, added, marker);
    FreeSetShrinks(f, added, marker);
  }

  /** The job of a write to a file whose chain is ch, or which had none and has just been given a first cluster. */
  ghost predicate JobOf(j: Job, img: Image, b: Bpb, v: Vol, chains: set<Chain>, ch: Chain, marker: uint16, offset: nat,
                        data: seq<byte>)
    requires Sound(img, b, v) && (ch == [] ==> Stops(marker, EOC))
  {
    && j.b == b && j.v == v && j.offset == offset && j.data == data
    && if ch != [] then j.base == img && j.chains == chains && j.ch == ch
       else
         |j.ch| == 1 && LowestFree(Table(img, b, v), j.ch[0]) && j.ch[0] < EOC && j.chains == chains + {j.ch}
         && j.base == ImageAfterTake(img, b, v, marker, j.ch[0])
  }

  /** The chain of a file with this first cluster: none if it is a value where walks stop. */
  ghost predicate FileChain(chains: set<Chain>, ch: Chain, first: uint16) {
    if Stops(first, EOC) then ch == [] else ch in chains && ch != [] && ch[0] == first
  }

  /** Gives an empty file its first cluster. */
  method TakeFirst(node: VfsNode, ghost chains: set<Chain>) returns (cur: uint16)
    requires node.Mounted() && Sound(node.disk.sectors, node.bpb, node.Volume()) && Stops(node.FirstCluster(), EOC)
    requires Filed(Table(node.disk.sectors, node.bpb, node.Volume()), chains)
    requires 0 < |FreeSet(Table(node.disk.sectors, node.bpb, node.Volume()))|
    modifies node`fsSpecific, node`dirtyBit, node.disk
    ensures LowestFree(old(Table(node.disk.sectors, node.bpb, node.Volume())), cur) && cur < EOC
    ensures node.disk.sectors
         == ImageAfterTake(old(node.disk.sectors), node.bpb, node.Volume(), old(node.FirstCluster()), cur)
    ensures node.fsSpecific == cur == node.FirstCluster() && node.dirtyBit == 1
  {
    ghost var f := Table(node.disk.sectors, node.bpb, node.Volume());
    ghost var e :| e in FreeSet(f);
    assert f[e] == 0 && 0 <= e < Min(EOC, node.bpb.sectorsPerFat * WORDS_PER_SECTOR);
    cur := GetFreeCluster(node.disk, node.bpb, node.startSect + node.bpb.reservedSectors, node.FirstCluster());
    node.SetFirstCluster(cur);
  }

  /** The volume is sound, its chains are known, and it has `room` free clusters. */
  ghost predicate Ready(img: Image, b: Bpb, v: Vol, chains: set<Chain>, room: int) {
    Sound(img, b, v) && Filed(Table(img, b, v), chains) && room <= |FreeSet(Table(img, b, v))|
  }

  lemma StartWithChain(j: Job, room: int)
    requires Ready(j.base, j.b, j.v, j.chains, room) && j.ch in j.chains && j.ch != []
    ensures Reached(j, Stage([], 0, 0), j.base, j.ch[0])
  {
    GoingStarts(j);
  }

  /** Looks the file's first cluster up; an empty file gets one. */
  method Prepare(node: VfsNode, ghost offset: nat, ghost data: seq<byte>, ghost chains: set<Chain>, ghost ch: Chain,
                 ghost need: nat)
      returns (cur: uint16, ghost j: Job)
    requires node.Mounted() && Ready(node.disk.sectors, node.bpb, node.Volume(), chains, need - |ch|) && 0 < need
    requires FileChain(chains, ch, node.FirstCluster())
    modifies node`fsSpecific, node`dirtyBit, node.disk
    ensures JobOf(j, old(node.disk.sectors), node.bpb, node.Volume(), chains, ch, old(node.FirstCluster()), offset,
                  data)
    ensures Reached(j, Stage([], 0, 0), node.disk.sectors, cur) && node.FirstCluster() == j.ch[0]
    ensures node.fsSpecific == if ch == [] then j.ch[0] else old(node.fsSpecific)
    ensures need - |j.ch| <= |FreeSet(Table(j.base, j.b, j.v))|
    ensures node.dirtyBit == if ch == [] then 1 else old(node.dirtyBit)
  {
    ghost var b, v, img := node.bpb, node.Volume(), node.disk.sectors;
    cur := node.FirstCluster();
    j := Job(img, b, v, chains, ch, offset, data);
    if cur >= EOC || cur < FIRST_CLUSTER {
      ghost var marker := cur;
      cur := TakeFirst(node, chains);
      FirstClusterTaken(img, b, v, chains, marker, cur);
      ghost var added: nat := cur;
      j := Job(node.disk.sectors, b, v, chains + {[added]}, [added], offset, data);
    }
    StartWithChain(j, need - |j.ch|);
  }

  /** What is to be written, once the file has a first cluster. */
  method PlanWrite(file: File, ghost data: seq<byte>, ghost chains: set<Chain>, ghost ch: Chain, ghost need: nat)
      returns (cur: uint16, ghost p: Plan)
    requires data != [] && file.node.Mounted() && FileChain(chains, ch, file.node.FirstCluster())
    requires Ready(file.node.disk.sectors, file.node.bpb, file.node.Volume(), chains, need - |ch|)
    requires need == Needed(file.node.Volume(), file.offset, |data|)
    modifies file.node`fsSpecific, file.node`dirtyBit, file.node.disk
    ensures JobOn(p.j, file.node) && Feasible(p) && Booked(file, p, Stage([], 0, 0)) && p.offset == file.offset
    ensures JobOf(p.j, old(file.node.disk.sectors), file.node.bpb, file.node.Volume(), chains, ch,
                  old(file.node.FirstCluster()), file.offset, data)
    ensures Reached(p.j, Stage([], 0, 0), file.node.disk.sectors, cur) && file.node.FirstCluster() == p.j.ch[0]
    ensures p.need == need && p.size == file.node.size
    ensures p.dirtyBit == if ch == [] then 1 else old(file.node.dirtyBit)
    ensures |p.j.ch| == if ch == [] then 1 else |ch|
    ensures file.node.fsSpecific == if ch == [] then p.j.ch[0] else old(file.node.fsSpecific)
  {
    ghost var j;
    cur, j := Prepare(file.node, file.offset, data, chains, ch, need);
    NeededSpans(j);
    AddWraps(file.offset, 0, 0);
    p := Plan(j, need, file.offset, file.node.size, file.node.dirtyBit);
  }

  method WriteOpen(file: File, buffer: array<byte>, size: uint32, ghost chains: set<Chain>, ghost ch: Chain)
      returns (n: nat, ghost j: Job, ghost taken: seq<nat>)
    requires 0 < size <= buffer.Length
    requires file.node.Mounted() && FileChain(chains, ch, file.node.FirstCluster())
    requires Ready(file.node.disk.sectors, file.node.bpb, file.node.Volume(), chains,
                   Needed(file.node.Volume(), file.offset, size) - |ch|)
    modifies file, file.node, file.node.disk
    ensures n == size
    ensures JobOf(j, old(file.node.disk.sectors), file.node.bpb, file.node.Volume(), chains, ch,
                  old(file.node.FirstCluster()), old(file.offset), buffer[..size])
    ensures Done(j, file.node.disk.sectors, taken)
    ensures file.node.FirstCluster() == j.ch[0]
    ensures file.offset == (old(file.offset) + size) % TWO_32 && file.node.size == Max(old(file.node.size), size)
    ensures if ch == [] then file.node.fsSpecific == j.ch[0] else file.node.fsSpecific == old(file.node.fsSpecific)
    ensures file.node.dirtyBit == (if |ch| < Needed(file.node.Volume(), old(file.offset), size) then 1
                                   else old(file.node.dirtyBit))
  {
    var cur;
    ghost var p, s;
    ghost var need := Needed(file.node.Volume(), file.offset, size);
    cur, p := PlanWrite(file, buffer[..size], chains, ch, need);
    n, s := WriteClusters(file, cur, buffer, size, p);
    j, taken := p.j, s.taken;
  }

  /**
   Writes `size` bytes at the file's offset. A file without clusters first gets one. All `size` bytes are always
   reported as written; what they became is `Going`: the part inside the file's chain replaced what was there, the rest
   went to clusters `taken` that are chains of their own.
   */
  method WriteFat16(file: File?, buffer: array<byte>, size: uint32, ghost chains: set<Chain>, ghost ch: Chain)
      returns (n: nat, ghost j: Job, ghost taken: seq<nat>)
    requires size <= buffer.Length
    requires file != null ==>
               && file.node.Mounted() && FileChain(chains, ch, file.node.FirstCluster())
               && Ready(file.node.disk.sectors, file.node.bpb, file.node.Volume(), chains,
                        if size == 0 then 0 else Needed(file.node.Volume(), file.offset, size) - |ch|)
    modifies if file == null then {} else {file, file.node, file.node.disk}
    ensures n == if file == null then 0 else size
    ensures file != null && size == 0 ==>
              && file.node.disk.sectors == old(file.node.disk.sectors) && file.offset == old(file.offset)
              && file.node.fsSpecific == old(file.node.fsSpecific) && file.node.size == old(file.node.size)
              && file.node.dirtyBit == old(file.node.dirtyBit)
    ensures file != null && 0 < size ==>
              && JobOf(j, old(file.node.disk.sectors), file.node.bpb, file.node.Volume(), chains, ch,
                       old(file.node.FirstCluster()), old(file.offset), buffer[..size])
              && Done(j, file.node.disk.sectors, taken)
              && |j.ch| + |taken| == Max(|j.ch|, Needed(file.node.Volume(), old(file.offset), size))
              && file.node.FirstCluster() == j.ch[0]
              && file.offset == (old(file.offset) + size) % TWO_32 && file.node.size == Max(old(file.node.size), size)
              && file.node.fsSpecific == (if ch == [] then j.ch[0] else old(file.node.fsSpecific))
              && (file.node.size == Max(old(file.node.size), old(file.offset) + size)
                  <==> old(file.offset) == 0 || old(file.offset) + size <= old(file.node.size))
              && file.node.dirtyBit == (if |ch| < Needed(file.node.Volume(), old(file.offset), size) then 1
                                        else old(file.node.dirtyBit))
  {
    n, j, taken := 0, Job([], Bpb(0, 0, 0, 0, 0, 0, 0, 0, 0), Vol(0, 0, 0), {}, [], 0, []), [];
    if size == 0 || file == null {
      return;
    }
    n, j, taken := WriteOpen(file, buffer, size, chains, ch);
    DoneNeeded(j, file.node.disk.sectors, taken);
  }
}
