/** What write_fat16 means for the files of the volume, and what read_fat16 then finds. */
module Fat16Theorems {
  import opened Bytes
  import opened Bpb
  import opened Disk
  import opened FatChain
  import opened FatTable
  import opened FreeCluster
  import opened Products
  import opened Volume
  import opened Fat16File
  import opened Fat16Read
  import opened Fat16State
  import opened Fat16WriteSteps
  import opened Fat16Write

  ghost predicate AllOnVolume(img: Image, v: Vol, ch: Chain) {
    forall c :: c in ch ==> OnVolume(img, v, c)
  }

  /** Nothing is taken exactly if the range lies inside the file's chain. */
  lemma TakenIffBeyond(j: Job, img: Image, taken: seq<nat>)
    requires Done(j, img, taken)
    ensures taken == [] <==> j.offset + |j.data| <= Capacity(j.v, j.ch)
  {
    if taken != [] && |taken| > 1 { TimesApart(|j.ch|, |j.ch| + |taken| - 1, ClusterBytes(j.v)); }
  }

  // ----- The file's own bytes

  /** Byte by byte: inside the range the data, elsewhere what was there. */
  lemma OwnByte(j: Job, img: Image, taken: seq<nat>, pos: nat)
    requires Done(j, img, taken) && AllOnVolume(j.base, j.v, j.ch) && pos < Capacity(j.v, j.ch)
    ensures Content(img, j.v, j.ch)[pos]
         == if j.offset <= pos < j.offset + |j.data| then j.data[pos - j.offset] else Content(j.base, j.v, j.ch)[pos]
  {
    var cb := ClusterBytes(j.v);
    var q := pos / cb;
    QuotientBelow(pos, cb, |j.ch|);
    DivMod(pos, cb);
    ContentAt(img, j.v, j.ch, pos);
    ContentAt(j.base, j.v, j.ch, pos);
    assert j.ch[q] in j.ch;
    OwnCluster(j, img, taken, q, pos % cb);
  }

  lemma OwnCluster(j: Job, img: Image, taken: seq<nat>, q: nat, r: nat)
    requires Done(j, img, taken) && q < |Path(j.ch, taken)| && r < ClusterBytes(j.v)
    requires OnVolume(j.base, j.v, Path(j.ch, taken)[q])
    ensures |img| == |j.base| && (q < |j.ch| ==> Path(j.ch, taken)[q] == j.ch[q])
    ensures var c := Path(j.ch, taken)[q];
      ClusterData(img, j.v, c)[r] == Expected(j.base, j.v, c, q, j.offset, |j.data|, j.data, r)
  {
    var path := Path(j.ch, taken);
    assert ClusterWritten(j.base, img, j.v, path[q], q, j.offset, |j.data|, j.data);
  }

  /** The same along the whole path, the clusters taken included. */
  lemma PathByte(j: Job, img: Image, taken: seq<nat>, pos: nat)
    requires Done(j, img, taken) && AllOnVolume(j.base, j.v, Path(j.ch, taken))
    requires pos < Capacity(j.v, Path(j.ch, taken))
    ensures |img| == |j.base|
    ensures Content(img, j.v, Path(j.ch, taken))[pos]
         == if j.offset <= pos < j.offset + |j.data| then j.data[pos - j.offset]
            else Content(j.base, j.v, Path(j.ch, taken))[pos]
  {
    var cb, path := ClusterBytes(j.v), Path(j.ch, taken);
    var q := pos / cb;
    QuotientBelow(pos, cb, |path|);
    DivMod(pos, cb);
    ContentAt(img, j.v, path, pos);
    ContentAt(j.base, j.v, path, pos);
    assert path[q] in path;
    OwnCluster(j, img, taken, q, pos % cb);
  }

  /** A range inside the chain is replaced, and nothing else of the file changes. */
  lemma WriteInside(j: Job, img: Image, taken: seq<nat>)
    requires Done(j, img, taken) && AllOnVolume(j.base, j.v, j.ch)
    requires j.offset + |j.data| <= Capacity(j.v, j.ch)
    ensures var was := Content(j.base, j.v, j.ch);
      Content(img, j.v, j.ch) == was[..j.offset] + j.data + was[j.offset + |j.data|..]
  {
    var was, now := Content(j.base, j.v, j.ch), Content(img, j.v, j.ch);
    var want := was[..j.offset] + j.data + was[j.offset + |j.data|..];
    forall pos | 0 <= pos < |now| ensures now[pos] == want[pos] {
      OwnByte(j, img, taken, pos);
    }
  }

  /** A range that begins inside the chain and ends behind it: the file gets the part that fits, and only that. */
  lemma WriteAcross(j: Job, img: Image, taken: seq<nat>)
    requires Done(j, img, taken) && AllOnVolume(j.base, j.v, j.ch)
    requires j.offset <= Capacity(j.v, j.ch) < j.offset + |j.data|
    ensures Content(img, j.v, j.ch) == Content(j.base, j.v, j.ch)[..j.offset] + j.data[..Capacity(j.v, j.ch) - j.offset]
  {
    var was, now := Content(j.base, j.v, j.ch), Content(img, j.v, j.ch);
    var want := was[..j.offset] + j.data[..Capacity(j.v, j.ch) - j.offset];
    forall pos | 0 <= pos < |now| ensures now[pos] == want[pos] {
      OwnByte(j, img, taken, pos);
    }
  }

  // ----- The other files and the tables

  lemma ContentKept(base: Image, img: Image, v: Vol, d: Chain)
    requires |img| == |base| && AllOnVolume(base, v, d)
    requires forall c :: c in d ==> ClusterKept(base, img, v, c)
    ensures Content(img, v, d) == Content(base, v, d)
  {
    if d != [] {
      var front := d[..|d| - 1];
      ContentKept(base, img, v, front);
      assert d[|d| - 1] in d;
      assert ClusterKept(base, img, v, d[|d| - 1]);
    }
  }

  lemma OffPath(f: Fat, chains: set<Chain>, ch: Chain, taken: seq<nat>, d: Chain, i: nat)
    requires Files(f, chains, ch, taken) && d in chains && d != ch && i < |d|
    ensures FIRST_CLUSTER <= d[i] && d[i] !in Path(ch, taken)
  {
    var all := chains + Singletons(taken);
    ChainEntry(f, EOC, d, i);
    NotOnOther(f, EOC, all, d, i, ch);
    forall k | 0 <= k < |taken| ensures taken[k] != d[i] {
      assert [taken[k]] in all;
      NotOnOther(f, EOC, all, d, i, [taken[k]]);
      assert taken[k] in [taken[k]];
    }
  }

  /** Every other file keeps its chain and its bytes. */
  lemma OthersKept(j: Job, img: Image, taken: seq<nat>, d: Chain)
    requires Done(j, img, taken) && d in j.chains && d != j.ch && AllOnVolume(j.base, j.v, d)
    ensures IsChain(Table(img, j.b, j.v), EOC, d)
    ensures Content(img, j.v, d) == Content(j.base, j.v, d)
  {
    forall c | c in d ensures ClusterKept(j.base, img, j.v, c) {
      var i: nat :| i < |d| && d[i] == c;
      OffPath(Table(img, j.b, j.v), j.chains, j.ch, taken, d, i);
    }
    ContentKept(j.base, img, j.v, d);
  }

  /** A write inside the chain leaves every sector before the data region, and so every copy of the table, as it was. */
  lemma FrontUntouched(j: Job, img: Image, taken: seq<nat>)
    requires Done(j, img, taken) && j.offset + |j.data| <= Capacity(j.v, j.ch)
    ensures forall s :: 0 <= s < |img| && s < j.v.dataLba ==> img[s] == j.base[s]
    ensures |img| == |j.base| && Table(img, j.b, j.v) == Table(j.base, j.b, j.v)
  {
    TakenIffBeyond(j, img, taken);
    CopiesApart(TablesOf(j.b, j.v.fatLba), 0, j.b.fatCount);
    SameSectorsSameFat(j.base, img, j.v.fatLba, j.b.sectorsPerFat);
  }

  /**
   A write beyond the chain does not extend it: the chain is still complete as it was, each cluster taken is a chain of
   its own, and there are exactly as many of them as the file would have needed.
   */
  lemma GrowthUnlinked(j: Job, img: Image, taken: seq<nat>)
    requires Done(j, img, taken) && Capacity(j.v, j.ch) < j.offset + |j.data|
    ensures Chained(Table(img, j.b, j.v), EOC, j.chains + Singletons(taken))
    ensures AllOnChains(Table(j.base, j.b, j.v), j.chains) ==>
              AllOnChains(Table(img, j.b, j.v), j.chains + Singletons(taken))
    ensures j.ch in j.chains && IsChain(Table(img, j.b, j.v), EOC, j.ch)
    ensures |taken| == Needed(j.v, j.offset, |j.data|) - |j.ch| > 0
    ensures forall k :: 0 <= k < |taken| ==> [taken[k]] !in j.chains && IsChain(Table(img, j.b, j.v), EOC, [taken[k]])
    ensures |FreeSet(Table(img, j.b, j.v))| == |FreeSet(Table(j.base, j.b, j.v))| - |taken|
  {
    TakenIffBeyond(j, img, taken);
    DoneNeeded(j, img, taken);
    forall k | 0 <= k < |taken| ensures [taken[k]] !in j.chains && IsChain(Table(img, j.b, j.v), EOC, [taken[k]]) {
      assert [taken[k]] in Singletons(taken);
    }
  }

  /** Giving an empty file its first cluster changes no sector outside the tables, and no file's bytes. */
  lemma FirstClusterOnlyTables(img: Image, b: Bpb, v: Vol, marker: uint16, added: uint16, d: Chain)
    requires Sound(img, b, v) && Stops(marker, EOC) && added < b.sectorsPerFat * WORDS_PER_SECTOR
    requires AllOnVolume(img, v, d)
    ensures var img' := ImageAfterTake(img, b, v, marker, added);
      && |img'| == |img| && Content(img', v, d) == Content(img, v, d)
      && forall s :: 0 <= s < |img| && !(v.fatLba <= s < CopyBase(TablesOf(b, v.fatLba), b.fatCount)) ==>
           img'[s] == img[s]
  {
    var img' := ImageAfterTake(img, b, v, marker, added);
    TakeImage(img, b, v, marker, added);
    forall c | c in d ensures ClusterKept(img, img', v, c) {
      DataUntouched(img, img', b, v, c);
    }
    ContentKept(img, img', v, d);
  }

  /**
   One call of WriteFat16: the file's chain, or [] with the number that stood in for its first cluster, and the data.
   */
  datatype Write = Write(ch: Chain, marker: uint16, offset: nat, data: seq<byte>)

  /** A volume at rest: the image, and all chains known so far, the clusters that earlier writes lost among them. */
  datatype State = State(img: Image, chains: set<Chain>)

  ghost predicate AtRest(s: State, b: Bpb, v: Vol) {
    0 < v.spc && Sound(s.img, b, v) && Filed(Table(s.img, b, v), s.chains)
  }

  ghost predicate Started(s: State, b: Bpb, v: Vol, w: Write, j: Job)
    requires AtRest(s, b, v)
  {
    && (if w.ch == [] then Stops(w.marker, EOC) else w.ch in s.chains)
    && JobOf(j, s.img, b, v, s.chains, w.ch, w.marker, w.offset, w.data)
  }

  /** What WriteFat16 promises, `taken` being the clusters that the chain lacked. */
  ghost predicate Wrote(s: State, b: Bpb, v: Vol, w: Write, j: Job, taken: seq<nat>, s': State)
    requires AtRest(s, b, v)
  {
    Started(s, b, v, w, j) && Done(j, s'.img, taken) && s'.chains == j.chains + Singletons(taken)
  }

  /** An empty file gets its first cluster before the data moves; that much leaves every other file alone. */
  lemma StartKeeps(s: State, b: Bpb, v: Vol, w: Write, j: Job, d: Chain)
    requires AtRest(s, b, v) && Started(s, b, v, w, j) && d in s.chains && AllOnVolume(s.img, v, d)
    ensures |j.base| == |s.img| && Content(j.base, v, d) == Content(s.img, v, d)
    ensures d in j.chains && (j.ch == d <==> w.ch == d)
  {
    assert IsChain(Table(s.img, b, v), EOC, d);
    if w.ch == [] {
      var added: uint16 := j.ch[0];
      FirstClusterTaken(s.img, b, v, s.chains, w.marker, added);
      FirstClusterOnlyTables(s.img, b, v, w.marker, added, d);
      assert j.ch == [added];
    }
  }

  /**
   Every other file keeps its chain and its bytes, counted from the image before the call, whether or not the file was
   empty then.
   */
  lemma OthersKeptByCall(s: State, b: Bpb, v: Vol, w: Write, j: Job, taken: seq<nat>, s': State, d: Chain)
    requires AtRest(s, b, v) && Wrote(s, b, v, w, j, taken, s') && d in s.chains && d != w.ch
    requires AllOnVolume(s.img, v, d)
    ensures |s'.img| == |s.img| && Content(s'.img, v, d) == Content(s.img, v, d)
    ensures Sound(s'.img, b, v) && IsChain(Table(s'.img, b, v), EOC, d)
  {
    StartKeeps(s, b, v, w, j, d);
    OthersKept(j, s'.img, taken, d);
  }

  // ----- Reading back

  /** The table that the hops read agrees with the searched one on every chain. */
  lemma ChainOfLinks(img: Image, b: Bpb, v: Vol, ch: Chain)
    requires Sound(img, b, v) && IsChain(Table(img, b, v), EOC, ch)
    ensures IsChain(LinksOf(img, v), EOC, ch)
  {
    var f, g := Table(img, b, v), LinksOf(img, v);
    forall i | 0 <= i < |ch| ensures Links(g, EOC, ch, i) {
      assert Links(f, EOC, ch, i);
      var c: uint16 := ch[i];
      LinkOfTable(img, b, v, c);
    }
  }

  /**
   Reading the range back gives the data written as far as the chain reaches: all of it exactly if the whole range lies
   inside the chain.
   */
  lemma ReadBack(j: Job, img: Image, taken: seq<nat>, n: nat, got: seq<byte>)
    requires Done(j, img, taken) && AllOnVolume(j.base, j.v, j.ch)
    requires ReadGives(img, j.v, j.ch[0], j.offset, |j.data|, n, got)
    ensures n == Min(|j.data|, Max(0, Capacity(j.v, j.ch) - j.offset))
    ensures got == j.data[..n]
    ensures got == j.data <==> j.offset + |j.data| <= Capacity(j.v, j.ch)
  {
    ChainOfLinks(img, j.b, j.v, j.ch);
    ReadOfChain(img, j.v, j.ch, j.offset, |j.data|, n, got);
    forall i | 0 <= i < n ensures got[i] == j.data[i] {
      ByteBack(j, img, taken, n, got, i);
    }
  }

  lemma ByteBack(j: Job, img: Image, taken: seq<nat>, n: nat, got: seq<byte>, i: nat)
    requires Done(j, img, taken) && AllOnVolume(j.base, j.v, j.ch) && i < n
    requires ReadGives(img, j.v, j.ch[0], j.offset, |j.data|, n, got)
    ensures got[i] == j.data[i]
  {
    ChainOfLinks(img, j.b, j.v, j.ch);
    ChainByte(img, j.v, j.ch, j.offset + i, got[i]);
    OwnByte(j, img, taken, j.offset + i);
  }

  /** A write to a file with a chain, and the job that it has done. */
  method WriteDone(file: File, buffer: array<byte>, size: uint32, ghost chains: set<Chain>, ghost ch: Chain)
      returns (ghost j: Job, ghost taken: seq<nat>)
    requires 0 < size <= buffer.Length
    requires file.node.Mounted() && ch != [] && FileChain(chains, ch, file.node.FirstCluster())
    requires Ready(file.node.disk.sectors, file.node.bpb, file.node.Volume(), chains,
                   Needed(file.node.Volume(), file.offset, size) - |ch|)
    modifies file, file.node, file.node.disk
    ensures j == Job(old(file.node.disk.sectors), file.node.bpb, file.node.Volume(), chains, ch, old(file.offset),
                     buffer[..size])
    ensures Done(j, file.node.disk.sectors, taken)
    ensures file.node.FirstCluster() == ch[0] && |file.node.disk.sectors| == |old(file.node.disk.sectors)|
    ensures file.offset == (old(file.offset) + size) % TWO_32 && file.node.size == Max(old(file.node.size), size)
  {
    var n;
    n, j, taken := WriteFat16(file, buffer, size, chains, ch);
  }

  /** Any write to a file with a chain, followed by a read of the same range. */
  method WriteThenRead(file: File, buffer: array<byte>, out: array<byte>, size: uint32, ghost chains: set<Chain>,
                       ghost ch: Chain)
      returns (back: nat)
    requires 0 < size <= buffer.Length && size <= out.Length && buffer != out
    requires file.node.Mounted() && ch != [] && FileChain(chains, ch, file.node.FirstCluster())
    requires Ready(file.node.disk.sectors, file.node.bpb, file.node.Volume(), chains,
                   Needed(file.node.Volume(), file.offset, size) - |ch|)
    requires AllOnVolume(file.node.disk.sectors, file.node.Volume(), ch)
    modifies file, file.node, file.node.disk, out
    ensures var room := Capacity(file.node.Volume(), ch) - old(file.offset);
      && back == Min(size, Max(0, room))
      && out[..back] == buffer[..back]
      && (back == size <==> size <= room)
    ensures file.node.size == Max(old(file.node.size), size)
  {
    var offset := file.offset;
    ghost var j, taken := WriteDone(file, buffer, size, chains, ch);
    file.offset := offset;
    back := ReadFat16(file, out, size);
    ReadBack(j, file.node.disk.sectors, taken, back, out[..back]);
  }

  lemma InsideNeeds(v: Vol, ch: Chain, offset: nat, size: nat)
    requires 0 < v.spc && 0 < size && offset + size <= Capacity(v, ch)
    ensures Needed(v, offset, size) <= |ch|
  {
    QuotientBelow(offset + size - 1, ClusterBytes(v), |ch|);
  }

  /** The second write starts where the first one ended, both inside the chain. */
  ghost predicate InARow(j: Job, img: Image, k: Job, img': Image) {
    && Done(j, img, []) && Done(k, img', []) && AllOnVolume(j.base, j.v, j.ch)
    && k.base == img && k.b == j.b && k.v == j.v && k.ch == j.ch && k.offset == j.offset + |j.data|
    && k.offset + |k.data| <= Capacity(j.v, j.ch)
  }

  lemma ByteOfBoth(j: Job, img: Image, k: Job, img': Image, pos: nat)
    requires InARow(j, img, k, img') && j.offset <= pos < k.offset + |k.data|
    ensures |img'| == |j.base| && AllOnVolume(img', k.v, k.ch) && pos < Capacity(k.v, k.ch)
    ensures Content(img', k.v, k.ch)[pos] == if pos < k.offset then j.data[pos - j.offset] else k.data[pos - k.offset]
  {
    OwnByte(k, img', [], pos);
    if pos < k.offset {
      FirstByte(j, img, k, pos);
    }
  }

  lemma FirstByte(j: Job, img: Image, k: Job, pos: nat)
    requires Done(j, img, []) && AllOnVolume(j.base, j.v, j.ch) && j.offset <= pos < j.offset + |j.data|
    requires k.base == img && k.v == j.v && k.ch == j.ch && pos < Capacity(j.v, j.ch)
    ensures AllOnVolume(k.base, k.v, k.ch) && Content(k.base, k.v, k.ch)[pos] == j.data[pos - j.offset]
  {
    OwnByte(j, img, [], pos);
  }

  /** One read of both ranges gives both data, one after the other. */
  lemma ReadBoth(j: Job, img: Image, k: Job, img': Image, n: nat, got: seq<byte>)
    requires InARow(j, img, k, img')
    requires ReadGives(img', j.v, j.ch[0], j.offset, |j.data| + |k.data|, n, got)
    ensures got == j.data + k.data
  {
    BothGot(j, img, k, img', n, got);
    forall i | 0 <= i < n ensures got[i] == if i < |j.data| then j.data[i] else k.data[i - |j.data|] {
      ByteGot(j, img, k, img', n, got, i);
    }
    InOrder(got, j.data, k.data);
  }

  lemma InOrder(got: seq<byte>, a: seq<byte>, b: seq<byte>)
    requires |got| == |a| + |b| && forall i :: 0 <= i < |got| ==> got[i] == if i < |a| then a[i] else b[i - |a|]
    ensures got == a + b
  {
  }

  lemma BothGot(j: Job, img: Image, k: Job, img': Image, n: nat, got: seq<byte>)
    requires InARow(j, img, k, img')
    requires ReadGives(img', j.v, j.ch[0], j.offset, |j.data| + |k.data|, n, got)
    ensures n == |got| == |j.data| + |k.data|
  {
    ChainAfterBoth(j, img, k, img');
    ReadOfChain(img', j.v, j.ch, j.offset, |j.data| + |k.data|, n, got);
  }

  lemma ChainAfterBoth(j: Job, img: Image, k: Job, img': Image)
    requires InARow(j, img, k, img')
    ensures |img'| == |j.base| && Sound(img', j.b, j.v) && Intact(img', j.v, j.ch)
  {
    ChainOfLinks(img', k.b, k.v, k.ch);
  }

  lemma ByteGot(j: Job, img: Image, k: Job, img': Image, n: nat, got: seq<byte>, i: nat)
    requires InARow(j, img, k, img') && i < n && i < |j.data| + |k.data|
    requires ReadGives(img', j.v, j.ch[0], j.offset, |j.data| + |k.data|, n, got)
    ensures got[i] == if i < |j.data| then j.data[i] else k.data[i - |j.data|]
  {
    ChainAfterBoth(j, img, k, img');
    ByteOfBoth(j, img, k, img', j.offset + i);
    ChainByte(img', j.v, j.ch, j.offset + i, got[i]);
  }

  /** A write inside the chain leaves the volume ready for another one there. */
  lemma ReadyAgain(j: Job, img: Image, taken: seq<nat>, room: int)
    requires Done(j, img, taken) && j.offset + |j.data| <= Capacity(j.v, j.ch)
    requires Ready(j.base, j.b, j.v, j.chains, room)
    ensures taken == [] && Ready(img, j.b, j.v, j.chains, room)
  {
    TakenIffBeyond(j, img, taken);
    FrontUntouched(j, img, taken);
  }

  lemma NoWrap(a: nat, b: nat)
    requires a + b < TWO_32
    ensures (a + b) % TWO_32 == a + b
  {
  }

  /** A write inside the chain, after which the volume is ready for the next one. */
  method WriteInChain(file: File, buffer: array<byte>, size: uint32, ghost chains: set<Chain>, ghost ch: Chain)
      returns (ghost j: Job)
    requires 0 < size <= buffer.Length
    requires file.node.Mounted() && ch != [] && FileChain(chains, ch, file.node.FirstCluster())
    requires Ready(file.node.disk.sectors, file.node.bpb, file.node.Volume(), chains, 0)
    requires file.offset + size <= Capacity(file.node.Volume(), ch) && file.offset + size < TWO_32
    modifies file, file.node, file.node.disk
    ensures j == Job(old(file.node.disk.sectors), file.node.bpb, file.node.Volume(), chains, ch, old(file.offset),
                     buffer[..size])
    ensures Done(j, file.node.disk.sectors, []) && |file.node.disk.sectors| == |old(file.node.disk.sectors)|
    ensures Ready(file.node.disk.sectors, file.node.bpb, file.node.Volume(), chains, 0)
    ensures file.node.FirstCluster() == old(file.node.FirstCluster()) && file.offset == old(file.offset) + size
  {
    InsideNeeds(file.node.Volume(), ch, file.offset, size);
    NoWrap(file.offset, size);
    ghost var taken;
    j, taken := WriteDone(file, buffer, size, chains, ch);
    ReadyAgain(j, file.node.disk.sectors, taken, 0);
  }

  /** Two writes in a row, without touching the offset between them. */
  method WriteTwice(file: File, one: array<byte>, size1: uint32, two: array<byte>, size2: uint32,
                    ghost chains: set<Chain>, ghost ch: Chain)
      returns (ghost j: Job, ghost k: Job)
    requires 0 < size1 <= one.Length && 0 < size2 <= two.Length
    requires file.node.Mounted() && ch != [] && FileChain(chains, ch, file.node.FirstCluster())
    requires Ready(file.node.disk.sectors, file.node.bpb, file.node.Volume(), chains, 0)
    requires AllOnVolume(file.node.disk.sectors, file.node.Volume(), ch)
    requires file.offset + size1 + size2 <= Capacity(file.node.Volume(), ch) && file.offset + size1 + size2 < TWO_32
    modifies file, file.node, file.node.disk
    ensures InARow(j, k.base, k, file.node.disk.sectors) && j.v == file.node.Volume() && j.ch == ch
    ensures j.offset == old(file.offset) && j.data == one[..size1] && k.data == two[..size2]
    ensures file.offset == old(file.offset) + size1 + size2
    ensures file.node.FirstCluster() == ch[0] && |file.node.disk.sectors| == |old(file.node.disk.sectors)|
  {
    j := WriteInChain(file, one, size1, chains, ch);
    k := WriteInChain(file, two, size2, chains, ch);
  }

  /** A read at a given offset. */
  method ReadFrom(file: File, offset: uint32, out: array<byte>, size: uint32) returns (back: nat)
    requires file.node.Mounted() && size <= out.Length && offset + size < TWO_32
    modifies file, file.node.disk, out
    ensures back <= size && file.offset == offset + back && file.node.disk.sectors == old(file.node.disk.sectors)
    ensures ReadGives(file.node.disk.sectors, file.node.Volume(), file.node.FirstCluster(), offset, size, back,
                      out[..back])
  {
    file.offset := offset;
    back := ReadFat16(file, out, size);
    NoWrap(offset, back);
  }

  /** And a read of both ranges. */
  method WriteTwiceThenRead(file: File, one: array<byte>, size1: uint32, two: array<byte>, size2: uint32,
                            out: array<byte>, ghost chains: set<Chain>, ghost ch: Chain)
      returns (back: nat)
    requires 0 < size1 <= one.Length && 0 < size2 <= two.Length
    requires size1 + size2 <= out.Length && out != one && out != two
    requires file.node.Mounted() && ch != [] && FileChain(chains, ch, file.node.FirstCluster())
    requires Ready(file.node.disk.sectors, file.node.bpb, file.node.Volume(), chains, 0)
    requires AllOnVolume(file.node.disk.sectors, file.node.Volume(), ch)
    requires file.offset + size1 + size2 <= Capacity(file.node.Volume(), ch) && file.offset + size1 + size2 < TWO_32
    modifies file, file.node, file.node.disk, out
    ensures back == size1 + size2 && out[..back] == one[..size1] + two[..size2]
    ensures file.offset == old(file.offset) + size1 + size2
  {
    var offset := file.offset;
    ghost var j, k := WriteTwice(file, one, size1, two, size2, chains, ch);
    back := ReadFrom(file, offset, out, size1 + size2);
    ReadBoth(j, k.base, k, file.node.disk.sectors, back, out[..back]);
  }

  /** Reading another file, anywhere, gives what it gave before. */
  lemma ReadOther(j: Job, img: Image, taken: seq<nat>, d: Chain, offset: nat, size: nat, n0: nat, got0: seq<byte>,
                  n: nat, got: seq<byte>)
    requires Done(j, img, taken) && d in j.chains && d != j.ch && AllOnVolume(j.base, j.v, d)
    requires IsChain(Table(j.base, j.b, j.v), EOC, d)
    requires ReadGives(j.base, j.v, d[0], offset, size, n0, got0) && ReadGives(img, j.v, d[0], offset, size, n, got)
    ensures n == n0 && got == got0
  {
    OthersKept(j, img, taken, d);
    ChainOfLinks(j.base, j.b, j.v, d);
    ChainOfLinks(img, j.b, j.v, d);
    ReadOfChain(j.base, j.v, d, offset, size, n0, got0);
    ReadOfChain(img, j.v, d, offset, size, n, got);
  }

  // ----- Any sequence of writes

  ghost predicate Runs(s: State, b: Bpb, v: Vol, ws: seq<Write>, s': State)
    requires AtRest(s, b, v)
    decreases |ws|
  {
    if ws == [] then s' == s
    else exists j, taken, s1 :: Wrote(s, b, v, ws[0], j, taken, s1) && AtRest(s1, b, v) && Runs(s1, b, v, ws[1..], s')
  }

  /** The data laid over the content, as far as the content reaches. */
  function Overlay(content: seq<byte>, offset: nat, data: seq<byte>): (r: seq<byte>)
    ensures |r| == |content|
  {
    seq(|content|, i requires 0 <= i < |content| =>
      if offset <= i < offset + |data| then data[i - offset] else content[i])
  }

  /** The content of the file with chain d after these writes: its own writes one after the other, and no other. */
  function After(content: seq<byte>, d: Chain, ws: seq<Write>): (r: seq<byte>)
    ensures |r| == |content|
    decreases |ws|
  {
    if ws == [] then content
    else After(if ws[0].ch == d then Overlay(content, ws[0].offset, ws[0].data) else content, d, ws[1..])
  }

  /** A write leaves the volume at rest, so that the next one can follow. */
  lemma WroteRests(s: State, b: Bpb, v: Vol, w: Write, j: Job, taken: seq<nat>, s': State)
    requires AtRest(s, b, v) && Wrote(s, b, v, w, j, taken, s')
    ensures AtRest(s', b, v)
  {
  }

  /** So a write, as WriteFat16 promises it, can go before any run. */
  lemma WriteThenRuns(s: State, b: Bpb, v: Vol, w: Write, j: Job, taken: seq<nat>, s1: State, ws: seq<Write>, s': State)
    requires AtRest(s, b, v) && Wrote(s, b, v, w, j, taken, s1)
    requires AtRest(s1, b, v) ==> Runs(s1, b, v, ws, s')
    ensures Runs(s, b, v, [w] + ws, s')
  {
    WroteRests(s, b, v, w, j, taken, s1);
    var all := [w] + ws;
    assert all[1..] == ws;
    assert Wrote(s, b, v, all[0], j, taken, s1) && AtRest(s1, b, v) && Runs(s1, b, v, all[1..], s');
  }

  /** It leaves every file with what its own writes made of it. */
  lemma WroteKeeps(s: State, b: Bpb, v: Vol, w: Write, j: Job, taken: seq<nat>, s': State, d: Chain)
    requires AtRest(s, b, v) && Wrote(s, b, v, w, j, taken, s') && d in s.chains && AllOnVolume(s.img, v, d)
    ensures d in s'.chains && |s'.img| == |s.img|
    ensures Content(s'.img, v, d)
         == if w.ch == d then Overlay(Content(s.img, v, d), w.offset, w.data) else Content(s.img, v, d)
  {
    StartKeeps(s, b, v, w, j, d);
    if w.ch == d {
      forall pos | 0 <= pos < Capacity(v, d)
        ensures Content(s'.img, v, d)[pos] == Overlay(Content(s.img, v, d), w.offset, w.data)[pos]
      {
        OwnByte(j, s'.img, taken, pos);
      }
    } else {
      OthersKeptByCall(s, b, v, w, j, taken, s', d);
    }
  }

  /**
   After any sequence of writes to any of the files, inside their chains or beyond: each file's chain is what it was,
   its content is the result of its own writes, and the clusters lost on the way disturb nobody.
   */
  lemma {:induction false} RunKeeps(s: State, b: Bpb, v: Vol, ws: seq<Write>, s': State, d: Chain)
    requires AtRest(s, b, v) && Runs(s, b, v, ws, s') && d in s.chains && AllOnVolume(s.img, v, d)
    ensures AtRest(s', b, v) && d in s'.chains && |s'.img| == |s.img|
    ensures Content(s'.img, v, d) == After(Content(s.img, v, d), d, ws)
    decreases |ws|
  {
    if ws != [] {
      var j, taken, s1 :| Wrote(s, b, v, ws[0], j, taken, s1) && AtRest(s1, b, v) && Runs(s1, b, v, ws[1..], s');
      WroteKeeps(s, b, v, ws[0], j, taken, s1, d);
      RunKeeps(s1, b, v, ws[1..], s', d);
    }
  }

  /** So a read at the end gives that slice of what the file's own writes made of it. */
  lemma ReadAfterRun(s: State, b: Bpb, v: Vol, ws: seq<Write>, s': State, d: Chain, offset: nat, size: nat, n: nat,
                     got: seq<byte>)
    requires AtRest(s, b, v) && Runs(s, b, v, ws, s') && d in s.chains && AllOnVolume(s.img, v, d)
    requires Sound(s'.img, b, v) && ReadGives(s'.img, v, d[0], offset, size, n, got)
    ensures n == Min(size, Max(0, Capacity(v, d) - offset))
    ensures n > 0 ==> got == After(Content(s.img, v, d), d, ws)[offset..offset + n]
  {
    RunKeeps(s, b, v, ws, s', d);
    ChainOfLinks(s'.img, b, v, d);
    ReadOfChain(s'.img, v, d, offset, size, n, got);
  }
}
