/** tools/fat.c: 12-bit table entries packed two in three bytes, and reading a file through its chain. */
module Fat12 {
  import opened Bytes
  import opened Bits

  const EOC12: nat := 0xff8

  type entry = x: int | 0 <= x < 0x1000

  /** Byte offset of an entry: one and a half bytes for each entry before it. */
  function Offset(cur: nat): nat {
    cur * 3 / 2
  }

  /** The entry of a cluster; an odd entry starts in the upper half of a byte. */
  function NextCluster(fat: seq<byte>, cur: uint16): nat
    requires Offset(cur) + 1 < Min(|fat|, 0x1_0000)
  {
    var lo: nat, hi: nat := fat[Offset(cur)], fat[Offset(cur) + 1];
    if cur % 2 != 0 then BitOr(hi * 16 % 0x1_0000, BitAnd(lo, 0xF0) / 16)
    else BitOr(lo, BitAnd(hi, 0x0F) * 256 % 0x1_0000)
  }

  // ----- The packing

  /** The table for these entries, low bits first; an unpaired last entry takes two bytes. */
  function Pack(vals: seq<entry>): seq<byte> {
    if vals == [] then []
    else if |vals| == 1 then [LowByte(vals[0]), MiddleByte(vals[0], 0)]
    else [LowByte(vals[0]), MiddleByte(vals[0], vals[1]), HighByte(vals[1])] + Pack(vals[2..])
  }

  function LowByte(a: entry): byte { a % 256 }
  function MiddleByte(a: entry, b: entry): byte { a / 256 + b % 16 * 16 }
  function HighByte(b: entry): byte { b / 16 }

  lemma {:induction false} PackLength(vals: seq<entry>)
    ensures |Pack(vals)| == (|vals| * 3 + 1) / 2
  {
    if |vals| > 1 { PackLength(vals[2..]); }
  }

  lemma Nibbles(x: byte)
    ensures BitAnd(x, 0xF0) == x - x % 16 && BitAnd(x, 0x0F) == x % 16
  {
    Powers();
    AndHigh(x, 8, 4, 256, 16);
    AndLow(x, 4, 16);
  }

  lemma ShiftFits(x: byte, t: nat)
    requires t < 16
    ensures x * 16 % 0x1_0000 == x * 16 && x * 16 % 16 == 0
    ensures t * 256 % 0x1_0000 == t * 256 && t * 256 % 256 == 0
  {
  }

  lemma EvenParts(lo: byte, t: nat)
    requires t < 16
    ensures BitOr(lo, t * 256 % 0x1_0000) == lo + t * 256
  {
    Powers();
    ShiftFits(0, t);
    OrAdds(t * 256, lo, 8, 256);
  }

  lemma OddParts(hi: byte, t: nat)
    requires t < 16
    ensures BitOr(hi * 16 % 0x1_0000, t) == hi * 16 + t
  {
    Powers();
    ShiftFits(hi, t);
    OrAdds(hi * 16, t, 4, 16);
  }

  lemma HighNibble(x: byte)
    ensures (x - x % 16) / 16 == x / 16 < 16
  {
  }

  /** What the masks and shifts compute. */
  lemma EvenEntry(lo: byte, hi: byte)
    ensures BitOr(lo, BitAnd(hi, 0x0F) * 256 % 0x1_0000) == lo + hi % 16 * 256
  {
    Nibbles(hi);
    EvenParts(lo, hi % 16);
  }

  lemma OddEntry(lo: byte, hi: byte)
    ensures BitOr(hi * 16 % 0x1_0000, BitAnd(lo, 0xF0) / 16) == lo / 16 + hi * 16
  {
    Nibbles(lo);
    HighNibble(lo);
    OddParts(hi, lo / 16);
  }

  function EntryAt(fat: seq<byte>, k: nat): nat
    requires Offset(k) + 1 < |fat|
  {
    var lo: nat, hi: nat := fat[Offset(k)], fat[Offset(k) + 1];
    if k % 2 != 0 then lo / 16 + hi * 16 else lo + hi % 16 * 256
  }

  lemma NextIsEntry(fat: seq<byte>, cur: uint16)
    requires Offset(cur) + 1 < Min(|fat|, 0x1_0000)
    ensures NextCluster(fat, cur) == EntryAt(fat, cur) < 0x1000
  {
    EvenEntry(fat[Offset(cur)], fat[Offset(cur) + 1]);
    OddEntry(fat[Offset(cur)], fat[Offset(cur) + 1]);
  }

  lemma EntryMoves(fat: seq<byte>, rest: seq<byte>, k: nat)
    requires |fat| == |rest| + 3 && fat[3..] == rest && Offset(k) + 1 < |rest|
    ensures Offset(k + 2) + 1 < |fat| && EntryAt(fat, k + 2) == EntryAt(rest, k)
  {
    assert Offset(k + 2) == Offset(k) + 3;
    assert fat[3..][Offset(k)] == fat[Offset(k) + 3] && fat[3..][Offset(k) + 1] == fat[Offset(k) + 4];
  }

  lemma {:induction false} EntryOfPacked(vals: seq<entry>, k: nat)
    requires k < |vals|
    ensures Offset(k) + 1 < |Pack(vals)| && EntryAt(Pack(vals), k) == vals[k]
  {
    if k < 2 {
      FirstEntries(vals, k);
    } else {
      EntryOfPacked(vals[2..], k - 2);
      EntryMoves(Pack(vals), Pack(vals[2..]), k - 2);
    }
  }

  lemma MiddleHalves(a: entry, b: entry)
    ensures MiddleByte(a, b) % 16 == a / 256 && MiddleByte(a, b) / 16 == b % 16
  {
  }

  lemma FirstEntries(vals: seq<entry>, k: nat)
    requires k < |vals| && k < 2
    ensures Offset(k) + 1 < |Pack(vals)| && EntryAt(Pack(vals), k) == vals[k]
  {
    assert Offset(0) == 0 && Offset(1) == 1;
    MiddleHalves(vals[0], if |vals| == 1 then 0 else vals[1]);
  }

  /** The number that these digits make up, the lowest digit first. */
  function Value(digits: seq<nat>, radix: nat): nat {
    if digits == [] then 0 else digits[0] + radix * Value(digits[1..], radix)
  }

  /** What the packing is: read as one number, low byte first, the table is the entries as digits of twelve bits. */
  lemma {:induction false} PackIsNumber(vals: seq<entry>)
    ensures Value(Pack(vals), 256) == Value(vals, 4096)
  {
    if |vals| == 1 {
      var lo: nat, mid: nat := LowByte(vals[0]), MiddleByte(vals[0], 0);
      OneDigit(mid, [], 256);
      OneDigit(lo, [mid] + [], 256);
      OneDigit(vals[0], [], 4096);
      assert Pack(vals) == [lo] + ([mid] + []) && vals == [vals[0]] + [];
      PairIsNumber(vals[0], 0);
    } else if 2 <= |vals| {
      PackIsNumber(vals[2..]);
      var lo: nat, mid: nat, hi: nat := LowByte(vals[0]), MiddleByte(vals[0], vals[1]), HighByte(vals[1]);
      var rest := Pack(vals[2..]);
      assert Pack(vals) == [lo, mid, hi] + rest;
      ThreeDigits(lo, mid, hi, rest);
      assert vals[1..][1..] == vals[2..];
      PairIsNumber(vals[0], vals[1]);
    }
  }

  lemma ThreeDigits(a: nat, b: nat, c: nat, rest: seq<nat>)
    ensures Value([a, b, c] + rest, 256) == a + 256 * b + 65536 * c + 0x100_0000 * Value(rest, 256)
  {
    OneDigit(c, rest, 256);
    OneDigit(b, [c] + rest, 256);
    OneDigit(a, [b] + ([c] + rest), 256);
    assert [a, b, c] + rest == [a] + ([b] + ([c] + rest));
  }

  lemma OneDigit(a: nat, rest: seq<nat>, radix: nat)
    ensures Value([a] + rest, radix) == a + radix * Value(rest, radix)
  {
    assert ([a] + rest)[1..] == rest;
  }

  lemma PairIsNumber(a: entry, b: entry)
    ensures LowByte(a) + 256 * MiddleByte(a, b) + 65536 * HighByte(b) == a + 4096 * b
  {
  }

  /** Decoding inverts the packing, at even and odd entries alike. */
  lemma DecodesPacked(vals: seq<entry>, k: uint16)
    requires k < |vals| && Offset(k) + 1 < 0x1_0000
    ensures Offset(k) + 1 < |Pack(vals)| && NextCluster(Pack(vals), k) == vals[k]
  {
    EntryOfPacked(vals, k);
    NextIsEntry(Pack(vals), k);
  }

  lemma FirstPair(fat: seq<byte>, vals: seq<entry>)
    requires 3 <= |fat| && 2 <= |vals| && vals[0] == EntryAt(fat, 0) && vals[1] == EntryAt(fat, 1)
    ensures LowByte(vals[0]) == fat[0] && MiddleByte(vals[0], vals[1]) == fat[1] && HighByte(vals[1]) == fat[2]
  {
    assert Offset(0) == 0 && Offset(1) == 1;
    SplitPair(fat[0], fat[1], fat[2]);
  }

  lemma SplitPair(lo: byte, mid: byte, hi: byte)
    ensures (lo + mid % 16 * 256) % 256 == lo && (lo + mid % 16 * 256) / 256 == mid % 16
    ensures (mid / 16 + hi * 16) % 16 == mid / 16 && (mid / 16 + hi * 16) / 16 == hi
  {
  }

  /** And every table that is a whole number of pairs is the packing of its decoded entries. */
  lemma {:induction false} PacksDecoded(fat: seq<byte>, vals: seq<entry>)
    requires |fat| % 3 == 0 && |vals| == |fat| / 3 * 2
    requires forall k :: 0 <= k < |vals| ==> vals[k] == EntryAt(fat, k)
    ensures Pack(vals) == fat
  {
    if fat != [] {
      var rest := fat[3..];
      forall k | 0 <= k < |vals| - 2 ensures vals[2..][k] == EntryAt(rest, k) {
        EntryMoves(fat, rest, k);
      }
      PacksDecoded(rest, vals[2..]);
      FirstPair(fat, vals);
      assert fat == [fat[0], fat[1], fat[2]] + rest;
    }
  }
}
