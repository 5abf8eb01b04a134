/** The BIOS parameter block of a FAT16 volume and the layout that fat16.c computes from it. */
module Bpb {
  import opened Bytes
  import opened Disk

  datatype Bpb = Bpb(
    bytesPerSect: uint16,
    sectPerClust: byte,
    reservedSectors: uint16,
    fatCount: byte,
    sectorsPerFat: uint16,
    rootEntryCount: uint16,
    fatLba: uint32,
    rootLba: uint32,
    dataLba: uint32)

  /** Two bytes of the boot sector, low byte first. */
  function Field16(s: Sector, at: nat): uint16
    requires at + 1 < SECTOR_SIZE
  {
    var lo: int, hi: int := s[at], s[at + 1];
    0x100 * hi + lo
  }

  /** Sectors of the root directory, rounded up. */
  function RootSectors(entries: nat, bytesPerSect: nat): nat
    requires 0 < bytesPerSect
  {
    (entries * 32 + (bytesPerSect - 1)) / bytesPerSect
  }

  function ParseBpb(s: Sector, startSect: uint32): Option<Bpb> {
    var bytesPerSect := Field16(s, 0x0b);
    var sectPerClust := s[0x0d];
    var fatCount := s[0x10];
    var sectorsPerFat := Field16(s, 0x16);
    if bytesPerSect !in {512, 1024, 2048, 4096} || sectPerClust == 0 || fatCount == 0 || sectorsPerFat == 0 then None
    else
      var reserved, entries := Field16(s, 0x0e), Field16(s, 0x11);
      var fatLba := (startSect + reserved) % TWO_32;
      var rootLba := (fatLba + ProductOfFields(fatCount, sectorsPerFat)) % TWO_32;
      var dataLba := (rootLba + RootSectors(entries, bytesPerSect)) % TWO_32;
      Some(Bpb(bytesPerSect, sectPerClust, reserved, fatCount, sectorsPerFat, entries, fatLba, rootLba, dataLba))
  }

  /** The fields of a parameter block as the boot sector holds them: each at its place, low byte first. */
  ghost predicate Carries(s: Sector, bytesPerSect: uint16, sectPerClust: byte, reserved: uint16, fatCount: byte,
                          rootEntries: uint16, sectorsPerFat: uint16)
  {
    && s[0x0b] == bytesPerSect % 256 && s[0x0c] == bytesPerSect / 256
    && s[0x0d] == sectPerClust
    && s[0x0e] == reserved % 256 && s[0x0f] == reserved / 256
    && s[0x10] == fatCount
    && s[0x11] == rootEntries % 256 && s[0x12] == rootEntries / 256
    && s[0x16] == sectorsPerFat % 256 && s[0x17] == sectorsPerFat / 256
  }

  /** Such a block can be written into any sector. */
  function Encode(s: Sector, bytesPerSect: uint16, sectPerClust: byte, reserved: uint16, fatCount: byte,
                  rootEntries: uint16, sectorsPerFat: uint16): (r: Sector)
    ensures Carries(r, bytesPerSect, sectPerClust, reserved, fatCount, rootEntries, sectorsPerFat)
    ensures forall i :: 0 <= i < SECTOR_SIZE && !(0x0b <= i <= 0x12 || i == 0x16 || i == 0x17) ==> r[i] == s[i]
  {
    s[..0x0b] + Low(bytesPerSect) + [sectPerClust] + Low(reserved) + [fatCount] + Low(rootEntries) + s[0x13..0x16]
    + Low(sectorsPerFat) + s[0x18..]
  }

  function Low(w: uint16): (r: seq<byte>)
    ensures |r| == 2 && r[0] == w % 256 && r[1] == w / 256
  {
    var lo: byte, hi: byte := w % 256, w / 256;
    [lo, hi]
  }

  /**
   A sector that carries a block is accepted if and only if the sector size is one of the four and none of the three
   counts is zero, and then parsing gives back exactly the fields.
   */
  lemma ParsesCarried(s: Sector, startSect: uint32, bytesPerSect: uint16, sectPerClust: byte, reserved: uint16,
                      fatCount: byte, rootEntries: uint16, sectorsPerFat: uint16)
    requires Carries(s, bytesPerSect, sectPerClust, reserved, fatCount, rootEntries, sectorsPerFat)
    ensures ParseBpb(s, startSect).Some? <==>
              bytesPerSect in {512, 1024, 2048, 4096} && sectPerClust != 0 && fatCount != 0 && sectorsPerFat != 0
    ensures ParseBpb(s, startSect).Some? ==> var b := ParseBpb(s, startSect).value;
              && b.bytesPerSect == bytesPerSect && b.sectPerClust == sectPerClust && b.reservedSectors == reserved
              && b.fatCount == fatCount && b.rootEntryCount == rootEntries && b.sectorsPerFat == sectorsPerFat
  {
  }

  /** Every sector carries some block. */
  lemma EverySectorCarries(s: Sector)
    ensures Carries(s, Field16(s, 0x0b), s[0x0d], Field16(s, 0x0e), s[0x10], Field16(s, 0x11), Field16(s, 0x16))
  {
    FieldBytes(s, 0x0b);
    FieldBytes(s, 0x0e);
    FieldBytes(s, 0x11);
    FieldBytes(s, 0x16);
  }

  lemma FieldBytes(s: Sector, at: nat)
    requires at + 1 < SECTOR_SIZE
    ensures s[at] == Field16(s, at) % 256 && s[at + 1] == Field16(s, at) / 256
  {
    Halves(s[at], s[at + 1]);
  }

  /**
   parse_partition_fill_bpb_fat16: loads the first sector of the partition and parses it; none if it cannot be read.
   */
  method ParsePartition(disk: Device, startSect: uint32) returns (b: Option<Bpb>)
    modifies disk`log
    ensures b == if startSect < |disk.sectors| then ParseBpb(disk.sectors[startSect], startSect) else None
  {
    var buf := new byte[SECTOR_SIZE];
    var code := disk.ReadBlock(startSect, buf, 0);
    if code < 0 {
      return None;
    }
    assert buf[0..0 + SECTOR_SIZE] == buf[..];
    b := ParseBpb(buf[..], startSect);
  }

  function ProductOfFields(a: byte, b: uint16): (r: nat)
    ensures r <= 0xff * 0xffff
    ensures 1 <= a && 1 <= b ==> b <= r
  {
    assert a * b <= 0xff * b;
    assert 1 <= a ==> 1 * b <= a * b;
    a * b
  }

  /** First data sector of the volume as read_fat16 and write_fat16 compute it, relative to the partition. */
  function DataOffset(b: Bpb): nat
    requires 0 < b.bytesPerSect
  {
    b.reservedSectors + ProductOfFields(b.fatCount, b.sectorsPerFat) + RootSectors(b.rootEntryCount, b.bytesPerSect)
  }

  lemma AddWrapped(a: nat, b: nat)
    ensures (a % TWO_32 + b) % TWO_32 == (a + b) % TWO_32
  {
  }

  /** Two regions of fewer than 2^25 sectors after the reserved ones. */
  lemma RegionsFit(b: Bpb)
    requires b.bytesPerSect in {512, 1024, 2048, 4096}
    ensures DataOffset(b) < 0x200_0000
  {
    assert RootSectors(b.rootEntryCount, b.bytesPerSect) <= 4096 + 1;
  }

  /**
   Modulo 2^32 the regions follow one another without gap: reserved sectors, all copies of the table, then exactly
   enough sectors for the root directory; and the data region starts where reading and writing look for it.
   */
  lemma ParseRegions(s: Sector, startSect: uint32)
    requires ParseBpb(s, startSect).Some?
    ensures var b := ParseBpb(s, startSect).value;
      && b.fatLba == (startSect + b.reservedSectors) % TWO_32
      && b.rootLba == (b.fatLba + b.fatCount * b.sectorsPerFat) % TWO_32
      && b.dataLba == (b.rootLba + RootSectors(b.rootEntryCount, b.bytesPerSect)) % TWO_32
      && b.dataLba == (startSect + DataOffset(b)) % TWO_32
      && DataOffset(b) < 0x200_0000
  {
    var b := ParseBpb(s, startSect).value;
    var tables, root := ProductOfFields(b.fatCount, b.sectorsPerFat), RootSectors(b.rootEntryCount, b.bytesPerSect);
    AddWrapped(startSect + b.reservedSectors, tables);
    AddWrapped(startSect + b.reservedSectors + tables, root);
    RegionsFit(b);
  }

  /** On a volume that does not reach the end of the 32-bit sector numbers, in plain arithmetic. */
  lemma ParseRegionsPlain(s: Sector, startSect: uint32)
    requires ParseBpb(s, startSect).Some? && startSect + DataOffset(ParseBpb(s, startSect).value) < TWO_32
    ensures var b := ParseBpb(s, startSect).value;
      && startSect + b.reservedSectors == b.fatLba
      && b.fatLba + b.fatCount * b.sectorsPerFat == b.rootLba
      && b.fatLba + b.sectorsPerFat <= b.rootLba
      && (b.rootLba + RootSectors(b.rootEntryCount, b.bytesPerSect) == b.dataLba)
      && startSect + DataOffset(b) == b.dataLba
  {
    var b := ParseBpb(s, startSect).value;
    var tables, root := ProductOfFields(b.fatCount, b.sectorsPerFat), RootSectors(b.rootEntryCount, b.bytesPerSect);
    Unwrapped(startSect + b.reservedSectors);
    Unwrapped(startSect + b.reservedSectors + tables);
    Unwrapped(startSect + b.reservedSectors + tables + root);
  }

  lemma Unwrapped(x: nat)
    requires x < TWO_32
    ensures x % TWO_32 == x
  {
  }

  /** The root directory has room for all its entries, and not a sector more than needed. */
  lemma RootSectorsSuffice(entries: nat, bytesPerSect: nat)
    requires bytesPerSect in {512, 1024, 2048, 4096}
    ensures RootSectors(entries, bytesPerSect) * bytesPerSect >= entries * 32
    ensures RootSectors(entries, bytesPerSect) * bytesPerSect < entries * 32 + bytesPerSect
  {
  }
}
