/** read_fat16 of fat16.c. */
module Fat16Read {
  import opened Bytes
  import opened Disk
  import opened FatChain
  import opened FatTable
  import opened Products
  import opened Volume
  import opened Fat16File

  /** The cluster that holds position `pos` of the file that starts at cluster `start`. */
  ghost function ClusterOf(img: Image, v: Vol, start: nat, pos: nat): Option<nat>
    requires v.fatLba + LINK_SECTORS <= |img| && 0 < v.spc
  {
    Hop(LinksOf(img, v), EOC, start, pos / ClusterBytes(v))
  }

  /** Position `pos` exists, and its byte is `b`, if its cluster lies on the disk at all. */
  ghost predicate ByteAt(img: Image, v: Vol, start: nat, pos: nat, b: byte)
    requires v.fatLba + LINK_SECTORS <= |img| && 0 < v.spc
  {
    var c := ClusterOf(img, v, start, pos);
    && c.Some?
    && (OnVolume(img, v, c.value) ==> b == ClusterData(img, v, c.value)[pos % ClusterBytes(v)])
  }

  /**
   `got` are the n bytes delivered when `size` bytes at `offset` are asked for, of the file that starts at cluster
   `start`: its bytes from there on, and short only where the chain ends.
   */
  ghost predicate ReadGives(img: Image, v: Vol, start: nat, offset: nat, size: nat, n: nat, got: seq<byte>)
    requires v.fatLba + LINK_SECTORS <= |img| && 0 < v.spc
  {
    && n <= size && |got| == n
    && (forall i :: 0 <= i < n ==> ByteAt(img, v, start, offset + i, got[i]))
    && (n < size ==> ClusterOf(img, v, start, offset + n) == None)
  }

  /** The inner loop: `count` hops through the table, or fewer if the chain ends. */
  method Hops(disk: Device, v: Vol, buf: array<byte>, from: uint16, count: nat, ghost start: nat, ghost h: nat)
      returns (cur: uint16, ended: bool)
    requires buf.Length == SECTOR_SIZE && v.fatLba + LINK_SECTORS <= |disk.sectors|
    requires Hop(LinksOf(disk.sectors, v), EOC, start, h) == Some(from)
    modifies disk`log, buf
    ensures !ended ==> Hop(LinksOf(disk.sectors, v), EOC, start, h + count) == Some(cur)
    ensures ended ==> Hop(LinksOf(disk.sectors, v), EOC, start, h + count) == None
  {
    ghost var f := LinksOf(disk.sectors, v);
    cur, ended := from, false;
    var i := 0;
    while i < count
      invariant i <= count && !ended && Hop(f, EOC, start, h + i) == Some(cur)
    {
      cur := NextCluster(disk, v, buf, cur);
      if cur >= EOC || cur < FIRST_CLUSTER {
        HopStops(f, EOC, start, h + i + 1, h + count);
        ended := true;
        return;
      }
      i := i + 1;
    }
  }

  /** A stretch of positions inside one cluster. */
  lemma SameCluster(img: Image, v: Vol, start: nat, pos: nat, k: nat)
    requires v.fatLba + LINK_SECTORS <= |img| && 0 < v.spc && pos % ClusterBytes(v) + k < ClusterBytes(v)
    ensures ClusterOf(img, v, start, pos + k) == ClusterOf(img, v, start, pos)
    ensures (pos + k) % ClusterBytes(v) == pos % ClusterBytes(v) + k
  {
    Advance(pos, ClusterBytes(v), k);
  }

  /**
   Reads as many bytes as the chain has, up to `size`: the bytes read are the file's bytes from the offset on, and if
   there are fewer than asked for, the chain ends there. Nothing is assumed about the table; cyclic chains are included.
   */
  method ReadFat16(file: File?, buffer: array<byte>, size: uint32) returns (n: nat)
    requires file != null ==> file.node.Mounted()
    requires size <= buffer.Length
    modifies if file == null then {} else {file}, if file == null then {} else {file.node.disk}, buffer
    ensures file == null ==> n == 0
    ensures n <= size
    ensures buffer[n..] == old(buffer[n..])
    ensures file != null ==>
              && file.node.disk.sectors == old(file.node.disk.sectors)
              && file.offset == (old(file.offset) + n) % TWO_32
              && var img, v, start := file.node.disk.sectors, file.node.Volume(), file.node.FirstCluster();
                 ReadGives(img, v, start, old(file.offset), size, n, buffer[..n])
  {
    if size == 0 || file == null {
      return 0;
    }
    n := ReadOpen(file, buffer, size);
  }

  method ReadOpen(file: File, buffer: array<byte>, size: uint32) returns (n: nat)
    requires file.node.Mounted() && 0 < size <= buffer.Length
    modifies file, file.node.disk`log, buffer
    ensures n <= size
    ensures buffer[n..] == old(buffer[n..])
    ensures file.offset == (old(file.offset) + n) % TWO_32
    ensures var img, v, start := file.node.disk.sectors, file.node.Volume(), file.node.FirstCluster();
      ReadGives(img, v, start, old(file.offset), size, n, buffer[..n])
  {
    var v := file.node.Volume();
    var start := file.node.FirstCluster();
    n := 0;
    if start >= EOC || start < FIRST_CLUSTER {
      NoCluster(file.node.disk.sectors, v, start, file.offset);
      return;
    }
    n := ReadClusters(file.node.disk, v, start, file.offset, buffer, size);
    file.offset := (file.offset + n) % TWO_32;
  }

  lemma NoCluster(img: Image, v: Vol, start: nat, pos: nat)
    requires v.fatLba + LINK_SECTORS <= |img| && 0 < v.spc && Stops(start, EOC)
    ensures ClusterOf(img, v, start, pos) == None
  {
    HopStops(LinksOf(img, v), EOC, start, 0, pos / ClusterBytes(v));
  }

  /** Loads cluster `cur` and copies a stretch of it to buffer[n..]. */
  method ReadPiece(disk: Device, v: Vol, cur: uint16, clusterTemp: array<byte>, offsetInCluster: nat,
                   buffer: array<byte>, n: nat,
                   targetSize: nat, ghost start: nat, ghost offset: nat)
    requires 0 < v.spc && v.fatLba + LINK_SECTORS <= |disk.sectors| && FIRST_CLUSTER <= cur
    requires clusterTemp.Length == ClusterBytes(v) && clusterTemp != buffer && n + targetSize <= buffer.Length
    requires offsetInCluster == (offset + n) % ClusterBytes(v) && offsetInCluster + targetSize <= ClusterBytes(v)
    requires ClusterOf(disk.sectors, v, start, offset + n) == Some(cur)
    modifies disk`log, clusterTemp, buffer
    ensures forall i :: n <= i < n + targetSize ==> ByteAt(disk.sectors, v, start, offset + i, buffer[i])
    ensures forall i :: 0 <= i < buffer.Length && !(n <= i < n + targetSize) ==> buffer[i] == old(buffer[i])
  {
    LoadCluster(disk, v, cur, clusterTemp);
    CopyBytes(buffer, n, clusterTemp, offsetInCluster, targetSize);
    forall i | n <= i < n + targetSize ensures ByteAt(disk.sectors, v, start, offset + i, buffer[i]) {
      SameCluster(disk.sectors, v, start, offset + n, i - n);
      assert buffer[i] == clusterTemp[offsetInCluster + (i - n)] == clusterTemp[..][offsetInCluster + (i - n)];
      assert offset + n + (i - n) == offset + i;
    }
  }

  /** The loop over clusters, with remaining bytes as its measure. */
  method ReadClusters(disk: Device, v: Vol, start: uint16, offset: nat, buffer: array<byte>, size: nat) returns (n: nat)
    requires 0 < v.spc && v.fatLba + LINK_SECTORS <= |disk.sectors| && !Stops(start, EOC)
    requires 0 < size <= buffer.Length
    modifies disk`log, buffer
    ensures n <= size
    ensures buffer[n..] == old(buffer[n..])
    ensures forall i :: 0 <= i < n ==> ByteAt(disk.sectors, v, start, offset + i, buffer[i])
    ensures n < size ==> ClusterOf(disk.sectors, v, start, offset + n) == None
  {
    ghost var img, f := disk.sectors, LinksOf(disk.sectors, v);
    var cb := ClusterBytes(v);
    var clusterCount: nat, offsetInCluster: nat, cur := offset / cb, offset % cb, start;
    ghost var h: nat := 0;
    var singleCluster := new byte[SECTOR_SIZE];
    var clusterTemp := new byte[cb];
    n := 0;
    while true
      invariant 0 <= n < size && !Stops(cur, EOC)
      invariant Hop(f, EOC, start, h) == Some(cur) && h + clusterCount == (offset + n) / cb
      invariant offsetInCluster == (offset + n) % cb < cb
      invariant forall i :: 0 <= i < n ==> ByteAt(img, v, start, offset + i, buffer[i])
      invariant forall i :: n <= i < buffer.Length ==> buffer[i] == old(buffer[i])
      decreases size - n
    {
      var ended;
      cur, ended := Hops(disk, v, singleCluster, cur, clusterCount, start, h);
      if ended {
        return;
      }
      h := h + clusterCount;
      var targetSize := Min(size - n, cb - offsetInCluster);
      label Copying:
      ReadPiece(disk, v, cur, clusterTemp, offsetInCluster, buffer, n, targetSize, start, offset);
      assert forall i :: 0 <= i < n ==> buffer[i] == old@Copying(buffer[i]);
      Advance(offset + n, cb, targetSize);
      n := n + targetSize;
      if n >= size {
        return;
      }
      clusterCount, offsetInCluster := 1, 0;
    }
  }

  // ----- Files whose chain is intact

  ghost predicate Intact(img: Image, v: Vol, ch: Chain)
    requires v.fatLba + LINK_SECTORS <= |img|
  {
    IsChain(LinksOf(img, v), EOC, ch) && forall c :: c in ch ==> OnVolume(img, v, c)
  }

  /** Bytes of all clusters of the chain. */
  function Capacity(v: Vol, ch: Chain): nat {
    Times(|ch|, ClusterBytes(v))
  }

  lemma ClusterOfChain(img: Image, v: Vol, ch: Chain, pos: nat)
    requires v.fatLba + LINK_SECTORS <= |img| && 0 < v.spc && IsChain(LinksOf(img, v), EOC, ch)
    ensures 0 <= pos / ClusterBytes(v)
    ensures pos < Capacity(v, ch) <==> pos / ClusterBytes(v) < |ch|
    ensures ClusterOf(img, v, ch[0], pos)
         == if pos / ClusterBytes(v) < |ch| then Some(ch[pos / ClusterBytes(v)]) else None
  {
    QuotientBelow(pos, ClusterBytes(v), |ch|);
    HopChain(LinksOf(img, v), EOC, ch, pos / ClusterBytes(v));
  }

  lemma ChainByte(img: Image, v: Vol, ch: Chain, pos: nat, b: byte)
    requires v.fatLba + LINK_SECTORS <= |img| && 0 < v.spc && Intact(img, v, ch)
    requires ByteAt(img, v, ch[0], pos, b)
    ensures pos < Capacity(v, ch) && b == Content(img, v, ch)[pos]
  {
    ClusterOfChain(img, v, ch, pos);
    var q := pos / ClusterBytes(v);
    assert ClusterOf(img, v, ch[0], pos) == Some(ch[q]);
    assert ch[q] in ch;
    ContentAt(img, v, ch, pos);
  }

  /**
   On an intact chain a read gets min(size, capacity - offset) bytes, or none: that slice of the concatenated
   clusters.
   */
  lemma ReadOfChain(img: Image, v: Vol, ch: Chain, offset: nat, size: nat, n: nat, got: seq<byte>)
    requires v.fatLba + LINK_SECTORS <= |img| && 0 < v.spc && Intact(img, v, ch)
    requires ReadGives(img, v, ch[0], offset, size, n, got)
    ensures n == Min(size, Max(0, Capacity(v, ch) - offset))
    ensures n > 0 ==> got == Content(img, v, ch)[offset..offset + n]
  {
    assert n < size ==> Capacity(v, ch) <= offset + n by { ClusterOfChain(img, v, ch, offset + n); }
    forall i | 0 <= i < n ensures offset + i < Capacity(v, ch) && got[i] == Content(img, v, ch)[offset + i] {
      ChainByte(img, v, ch, offset + i, got[i]);
    }
    if 0 < n {
      ChainByte(img, v, ch, offset + (n - 1), got[n - 1]);
    }
  }

  /** On a chain that runs into a cycle, a read is never short. */
  lemma ReadOfCycle(img: Image, v: Vol, start: nat, offset: nat, size: nat, n: nat, got: seq<byte>, i: nat, j: nat)
    requires v.fatLba + LINK_SECTORS <= |img| && 0 < v.spc && ReadGives(img, v, start, offset, size, n, got)
    requires i < j && Hop(LinksOf(img, v), EOC, start, i).Some?
    requires Hop(LinksOf(img, v), EOC, start, i) == Hop(LinksOf(img, v), EOC, start, j)
    ensures n == size
  {
    QuotientBelow(offset + n, ClusterBytes(v), 0);
    HopCycle(LinksOf(img, v), EOC, start, i, j, (offset + n) / ClusterBytes(v));
  }
}
