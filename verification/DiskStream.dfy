/** disk_stream.c: reading any byte range of a disk, sector by sector. */
module DiskStream {
  import opened Bytes
  import opened Disk

  /** Byte p of the disk, counted from the first byte of sector 0. */
  function DiskByte(img: Image, p: nat): byte
    requires p < |img| * SECTOR_SIZE
  {
    img[p / SECTOR_SIZE][p % SECTOR_SIZE]
  }

  predicate HasByte(img: Image, p: nat, x: byte) {
    p < |img| * SECTOR_SIZE && DiskByte(img, p) == x
  }

  function DiskSlice(img: Image, pos: nat, n: nat): (r: seq<byte>)
    requires pos + n <= |img| * SECTOR_SIZE
    ensures |r| == n
  {
    seq<byte>(n, i requires 0 <= i < n => DiskByte(img, pos + i))
  }

  lemma ByteInSector(img: Image, lba: nat, index: nat, p: nat)
    requires lba < |img| && index < SECTOR_SIZE && p == lba * SECTOR_SIZE + index
    ensures p < |img| * SECTOR_SIZE && DiskByte(img, p) == img[lba][index]
  {
  }

  /** Rounds of the sector loop; the sum is a 32-bit number. */
  function Rounds(pos: uint32, n: uint32): nat {
    if n == 0 then 0
    else
      var sum := (n + pos % SECTOR_SIZE) % TWO_32;
      sum / SECTOR_SIZE + (if sum % SECTOR_SIZE != 0 then 1 else 0)
  }

  /** First sector that is not read: the rounds are over, or the disk is. */
  function SectorsEnd(total: nat, pos: uint32, n: uint32): (e: nat)
    ensures pos / SECTOR_SIZE <= e
  {
    Max(pos / SECTOR_SIZE, Min(pos / SECTOR_SIZE + Rounds(pos, n), total))
  }

  /** How many bytes arrive. */
  function Copied(total: nat, pos: uint32, n: uint32): (c: nat)
    ensures c <= n
  {
    Min(n, Max(0, SectorsEnd(total, pos, n) * SECTOR_SIZE - pos))
  }

  function Consecutive(from: nat, count: nat): (r: seq<nat>)
    ensures |r| == count
  {
    seq(count, k requires 0 <= k < count => from + k)
  }

  /** Everything asked for arrives exactly if it is on the disk and the number of sectors does not overflow. */
  lemma CopiedAll(total: nat, pos: uint32, n: uint32)
    requires 0 < n
    ensures Copied(total, pos, n) == n <==> pos + n <= total * SECTOR_SIZE && n + pos % SECTOR_SIZE < TWO_32
    ensures pos + Copied(total, pos, n) <= total * SECTOR_SIZE || Copied(total, pos, n) == 0
  {
    var lba, index := pos / SECTOR_SIZE, pos % SECTOR_SIZE;
    if n + index < TWO_32 {
      assert lba * SECTOR_SIZE + index == pos;
      assert n + index <= Rounds(pos, n) * SECTOR_SIZE < n + index + SECTOR_SIZE;
    } else {
      assert Rounds(pos, n) <= 1;
    }
  }

  /** A byte of a slice, by its sector and its place there. */
  lemma SliceByte(img: Image, pos: nat, n: nat, i: nat)
    requires pos + n <= |img| * 512 && i < n
    ensures 0 <= (pos + i) / 512 < |img| && DiskSlice(img, pos, n)[i] == img[(pos + i) / 512][(pos + i) % 512]
  {
    var p := pos + i;
    assert p / 512 * 512 <= p;
    assert DiskSlice(img, pos, n)[i] == DiskByte(img, p);
  }

  /** The whole range arrives, and the sectors from that of its first byte to that of its last are read. */
  lemma WholeRange(total: nat, pos: uint32, n: uint32)
    requires 0 < n && pos + n <= total * 512 && n + pos % 512 < TWO_32
    ensures Copied(total, pos, n) == n
    ensures var sectors := Consecutive(pos / 512, SectorsEnd(total, pos, n) - pos / 512);
      && |sectors| == (pos + n - 1) / 512 - pos / 512 + 1
      && forall k :: 0 <= k < |sectors| ==> sectors[k] == pos / 512 + k
  {
    CopiedAll(total, pos, n);
    LastSector(total, pos, n);
  }

  /** The sectors read end with that of the last byte. */
  lemma LastSector(total: nat, pos: uint32, n: uint32)
    requires 0 < n && pos + n <= total * SECTOR_SIZE && n + pos % SECTOR_SIZE < TWO_32
    ensures SectorsEnd(total, pos, n) == (pos + n - 1) / SECTOR_SIZE + 1
  {
    var last := (pos + n - 1) / SECTOR_SIZE;
    assert last * SECTOR_SIZE < pos + n <= (last + 1) * SECTOR_SIZE;
    var first, end := pos / SECTOR_SIZE, SectorsEnd(total, pos, n);
    assert first * SECTOR_SIZE <= pos < (first + 1) * SECTOR_SIZE;
    assert first <= last && pos < (last + 1) * SECTOR_SIZE;
    SectorsCovered(total, pos, n, last);
    SectorsCovered(total, pos, n, last + 1);
    assert first <= last < end && !(last + 1 < end);
  }

  /** A range on the disk of which one byte arrives: the 32-bit sum of size and offset in the sector wraps to 510. */
  lemma OverflowCopiesLess()
    ensures var pos: uint32, n: uint32, total := 511, 0xffff_ffff, 0x80_0001;
      pos + n <= total * SECTOR_SIZE && Copied(total, pos, n) == 1
  {
  }

  /** Without overflow the sectors read are those that hold a byte of the range, each read once and no other. */
  lemma SectorsCovered(total: nat, pos: uint32, n: uint32, s: nat)
    requires 0 < n && pos + n <= total * SECTOR_SIZE && n + pos % SECTOR_SIZE < TWO_32
    ensures pos / SECTOR_SIZE <= s < SectorsEnd(total, pos, n)
            <==> s * SECTOR_SIZE < pos + n && pos < (s + 1) * SECTOR_SIZE
  {
    var lba, index := pos / SECTOR_SIZE, pos % SECTOR_SIZE;
    assert lba * SECTOR_SIZE + index == pos;
    assert n + index <= Rounds(pos, n) * SECTOR_SIZE < n + index + SECTOR_SIZE;
  }

  /** The loop ends before sector `lba`: the rounds are over, or that sector does not exist. */
  lemma Arrived(total: nat, pos: uint32, n: uint32, lba: nat)
    requires 0 < n && pos / SECTOR_SIZE <= lba <= pos / SECTOR_SIZE + Rounds(pos, n)
    requires lba == pos / SECTOR_SIZE || lba <= total
    requires lba == pos / SECTOR_SIZE + Rounds(pos, n) || total <= lba
    ensures SectorsEnd(total, pos, n) == lba
    ensures Copied(total, pos, n) == if lba == pos / SECTOR_SIZE then 0 else Min(n, lba * SECTOR_SIZE - pos)
  {
  }

  class Stream {
    const disk: Device
    var pos: uint32

    constructor (disk: Device)
      ensures this.disk == disk && pos == 0
    {
      this.disk := disk;
      pos := 0;
    }

    method Seek(position: uint32)
      modifies this
      ensures pos == position
    {
      pos := position;
    }

    /** The inner loop: the bytes of one sector from `index` on, as far as they are wanted. */
    method CopySector(ram: array<byte>, buf: array<byte>, at: uint32, from: uint32, n: uint32) returns (i: uint32)
      requires buf.Length == SECTOR_SIZE && buf != ram && at <= n <= ram.Length && from < SECTOR_SIZE
      modifies ram
      ensures i == Min(n, at + (SECTOR_SIZE - from))
      ensures forall k :: at <= k < i ==> ram[k] == buf[from + (k - at)]
      ensures forall k :: 0 <= k < ram.Length && !(at <= k < i) ==> ram[k] == old(ram[k])
    {
      i := at;
      var index := from;
      while i < n && index < SECTOR_SIZE
        invariant at <= i <= n && index == from + (i - at) <= SECTOR_SIZE
        invariant forall k :: at <= k < i ==> ram[k] == buf[from + (k - at)]
        invariant forall k :: 0 <= k < ram.Length && !(at <= k < i) ==> ram[k] == old(ram[k])
      {
        ram[i] := buf[index];
        i, index := i + 1, index + 1;
      }
    }

    /** One round: a sector is read, and its bytes from `index` on are copied. */
    method TakeSector(lba: nat, buf: array<byte>, ram: array<byte>, at: uint32, index: uint32, n: uint32)
        returns (failed: bool, i: uint32)
      requires buf.Length == SECTOR_SIZE && buf != ram && at <= n <= ram.Length && index < SECTOR_SIZE
      requires at < n ==> pos + at == lba * SECTOR_SIZE + index
      modifies disk`log, buf, ram
      ensures failed <==> |disk.sectors| <= lba
      ensures disk.log == if failed then old(disk.log) else old(disk.log) + [lba]
      ensures i == if failed then at else Min(n, at + (SECTOR_SIZE - index))
      ensures forall k :: at <= k < i ==> HasByte(disk.sectors, pos + k, ram[k])
      ensures forall k :: 0 <= k < ram.Length && !(at <= k < i) ==> ram[k] == old(ram[k])
    {
      i, failed := at, false;
      var code := disk.ReadBlock(lba, buf, 0);
      if code != 0 {
        failed := true;
        return;
      }
      i := CopySector(ram, buf, at, index, n);
      forall k | at <= k < i ensures HasByte(disk.sectors, pos + k, ram[k]) {
        ByteInSector(disk.sectors, lba, index + (k - at), pos + k);
        assert buf[index + (k - at)] == buf[0..0 + SECTOR_SIZE][index + (k - at)];
      }
    }

    /** The loop over `rounds` sectors, `first` the one that holds the position; it ends before sector `last`. */
    method TakeSectors(buf: array<byte>, ram: array<byte>, first: nat, from: uint32, rounds: nat, n: uint32)
        returns (ghost last: nat, ghost got: nat)
      requires buf.Length == SECTOR_SIZE && buf != ram && n <= ram.Length && from < SECTOR_SIZE
      requires pos == first * SECTOR_SIZE + from
      modifies disk`log, buf, ram
      ensures last == Max(first, Min(first + rounds, |disk.sectors|))
      ensures got == if last == first then 0 else Min(n, last * SECTOR_SIZE - pos)
      ensures disk.log == old(disk.log) + Consecutive(first, last - first)
      ensures forall k :: 0 <= k < got ==> HasByte(disk.sectors, pos + k, ram[k])
      ensures forall k :: got <= k < ram.Length ==> ram[k] == old(ram[k])
    {
      var lba, index, i, count := first, from, 0, rounds;
      while count > 0
        invariant 0 <= count && lba + count == first + rounds && (lba == first || first < lba <= |disk.sectors|)
        invariant disk.log == old(disk.log) + Consecutive(first, lba - first)
        invariant i == if lba == first then 0 else Min(n, lba * SECTOR_SIZE - pos)
        invariant index == if lba == first then from else 0
        invariant forall k :: 0 <= k < i ==> HasByte(disk.sectors, pos + k, ram[k])
        invariant forall k :: i <= k < ram.Length ==> ram[k] == old(ram[k])
      {
        var failed;
        failed, i := TakeSector(lba, buf, ram, i, index, n);
        if failed {
          return lba, i;
        }
        index := 0;
        count, lba := count - 1, lba + 1;
      }
      last, got := lba, i;
    }

    /**
     Copies the disk's bytes [pos, pos + n) to `ram`, as many of them as `Copied` says, and reads the sectors that hold
     them in order, each once.
     */
    method GetBytesFromDisk(n: uint32, ram: array<byte>)
      requires n <= ram.Length
      modifies disk`log, ram
      ensures var c := Copied(|disk.sectors|, pos, n);
        && (0 < c ==> pos + c <= |disk.sectors| * SECTOR_SIZE && ram[..c] == DiskSlice(disk.sectors, pos, c))
        && ram[c..] == old(ram[c..])
      ensures disk.log == old(disk.log)
                          + Consecutive(pos / SECTOR_SIZE, SectorsEnd(|disk.sectors|, pos, n) - pos / SECTOR_SIZE)
    {
      if n == 0 {
        return;
      }
      var buf := new byte[SECTOR_SIZE];
      var lba, index := pos / SECTOR_SIZE, pos % SECTOR_SIZE;
      var count := (n + index) % TWO_32 / SECTOR_SIZE;
      if (n + index) % TWO_32 % SECTOR_SIZE != 0 {
        count := count + 1;
      }
      ghost var last, got := TakeSectors(buf, ram, lba, index, count, n);
      Arrived(|disk.sectors|, pos, n, last);
    }
  }
}
