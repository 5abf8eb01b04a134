/** A disk as a sequence of 512-byte sectors, and the little-endian 16-bit words of a sector. */
module Disk {
  import opened Bytes

  const SECTOR_SIZE: nat := 512
  const WORDS_PER_SECTOR: nat := 256
  const GEN32_INVARG: int := 2

  type Sector = s: seq<byte> | |s| == SECTOR_SIZE witness seq(SECTOR_SIZE, _ => 0)
  type Image = seq<Sector>

  /** The transfer itself never fails; only a sector past the end is refused. */
  class Device {
    var sectors: Image
    /** Every sector read so far, in order. */
    ghost var log: seq<nat>

    constructor (sectors: Image)
      ensures this.sectors == sectors && log == []
    {
      this.sectors := sectors;
      log := [];
    }

    /** read_disk_block for one sector. */
    method ReadBlock(lba: nat, buf: array<byte>, at: nat) returns (code: int)
      requires at + SECTOR_SIZE <= buf.Length
      modifies this`log, buf
      ensures code == if lba < |sectors| then 0 else -GEN32_INVARG
      ensures code == 0 ==> buf[at..at + SECTOR_SIZE] == sectors[lba] && log == old(log) + [lba]
      ensures code != 0 ==> buf[..] == old(buf[..]) && log == old(log)
      ensures buf[..at] == old(buf[..at]) && buf[at + SECTOR_SIZE..] == old(buf[at + SECTOR_SIZE..])
    {
      if |sectors| < lba + 1 {
        return -GEN32_INVARG;
      }
      for k := 0 to SECTOR_SIZE
        invariant log == old(log)
        invariant forall i :: at <= i < at + k ==> buf[i] == sectors[lba][i - at]
        invariant forall i :: 0 <= i < buf.Length && !(at <= i < at + k) ==> buf[i] == old(buf[i])
      {
        buf[at + k] := sectors[lba][k];
      }
      log := log + [lba];
      code := 0;
    }

    /** write_disk_block for one sector. */
    method WriteBlock(lba: nat, buf: array<byte>, at: nat) returns (code: int)
      requires at + SECTOR_SIZE <= buf.Length
      modifies this`sectors
      ensures code == if lba < |old(sectors)| then 0 else -GEN32_INVARG
      ensures sectors == if lba < |old(sectors)| then old(sectors)[lba := buf[at..at + SECTOR_SIZE]] else old(sectors)
    {
      if |sectors| < lba + 1 {
        return -GEN32_INVARG;
      }
      sectors := sectors[lba := buf[at..at + SECTOR_SIZE]];
      code := 0;
    }
  }

  // ----- 16-bit words

  function Word16(s: Sector, j: nat): (w: uint16)
    requires j < WORDS_PER_SECTOR
  {
    var lo: int, hi: int := s[2 * j], s[2 * j + 1];
    lo + 0x100 * hi
  }

  function SetWord16(s: Sector, j: nat, w: uint16): (r: Sector)
    requires j < WORDS_PER_SECTOR
    ensures forall i :: 0 <= i < WORDS_PER_SECTOR ==> Word16(r, i) == if i == j then w else Word16(s, i)
  {
    var lo: byte, hi: byte := w % 0x100, w / 0x100;
    var r: seq<byte> := s[2 * j := lo][2 * j + 1 := hi];
    r
  }

  /** The low byte comes first, on reading and on writing. */
  lemma WordBytes(s: Sector, j: nat, w: uint16)
    requires j < WORDS_PER_SECTOR
    ensures s[2 * j] == Word16(s, j) % 256 && s[2 * j + 1] == Word16(s, j) / 256
    ensures SetWord16(s, j, w)[2 * j] == w % 256 && SetWord16(s, j, w)[2 * j + 1] == w / 256
    ensures forall i :: 0 <= i < SECTOR_SIZE && i / 2 != j ==> SetWord16(s, j, w)[i] == s[i]
  {
    Halves(s[2 * j], s[2 * j + 1]);
  }

  lemma Halves(lo: byte, hi: byte)
    ensures (lo + 0x100 * hi) % 256 == lo && (lo + 0x100 * hi) / 256 == hi
  {
  }

  method Get16(buf: array<byte>, j: nat) returns (w: uint16)
    requires buf.Length == SECTOR_SIZE && j < WORDS_PER_SECTOR
    ensures w == Word16(buf[..], j)
  {
    var lo: int, hi: int := buf[2 * j], buf[2 * j + 1];
    w := lo + 0x100 * hi;
  }

  method Put16(buf: array<byte>, j: nat, w: uint16)
    requires buf.Length == SECTOR_SIZE && j < WORDS_PER_SECTOR
    modifies buf
    ensures buf[..] == SetWord16(old(buf[..]), j, w)
  {
    buf[2 * j] := w % 0x100;
    buf[2 * j + 1] := w / 0x100;
  }
}
