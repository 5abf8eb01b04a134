/** Aligned 32-bit words in byte-addressed memory, least significant byte first. */
module Memory {
  import opened Bytes

  function Load32(ram: array<byte>, a: nat): (w: uint32)
    requires a + 4 <= ram.Length
    reads ram
  {
    var b0: int, b1: int, b2: int, b3: int := ram[a], ram[a + 1], ram[a + 2], ram[a + 3];
    b0 + 0x100 * b1 + 0x1_0000 * b2 + 0x100_0000 * b3
  }

  /** The four bytes of a word. */
  lemma Digits(w: uint32)
    ensures w == w % 0x100 + 0x100 * (w / 0x100 % 0x100) + 0x1_0000 * (w / 0x1_0000 % 0x100)
                 + 0x100_0000 * (w / 0x100_0000)
  {
    var q1, q2, q3 := w / 0x100, w / 0x1_0000, w / 0x100_0000;
    assert q1 / 0x100 == q2 && q2 / 0x100 == q3;
    assert w == 0x100 * q1 + w % 0x100 && q1 == 0x100 * q2 + q1 % 0x100 && q2 == 0x100 * q3 + q2 % 0x100;
  }

  /** The four bytes in memory, low byte first. */
  lemma WordBytes(ram: array<byte>, a: nat)
    requires a + 4 <= ram.Length
    ensures var w := Load32(ram, a);
      && ram[a] == w % 0x100 && ram[a + 1] == w / 0x100 % 0x100
      && ram[a + 2] == w / 0x1_0000 % 0x100 && ram[a + 3] == w / 0x100_0000
  {
    TopBytes(ram[a], ram[a + 1], ram[a + 2], ram[a + 3]);
  }

  lemma TopBytes(b0: byte, b1: byte, b2: byte, b3: byte)
    ensures var low: int, high: int := b0 + 0x100 * b1, b2 + 0x100 * b3;
      && low % 0x100 == b0 && low / 0x100 == b1 && high % 0x100 == b2 && high / 0x100 == b3
      && (low + 0x1_0000 * high) % 0x100 == b0 && (low + 0x1_0000 * high) / 0x100 % 0x100 == b1
      && (low + 0x1_0000 * high) / 0x1_0000 == high
      && (low + 0x1_0000 * high) / 0x1_0000 % 0x100 == b2 && (low + 0x1_0000 * high) / 0x100_0000 == b3
  {
  }

  /** After a store the word reads back, and no other byte has changed. */
  method Store32(ram: array<byte>, a: nat, w: uint32)
    requires a + 4 <= ram.Length
    modifies ram
    ensures Load32(ram, a) == w
    ensures forall b :: 0 <= b < ram.Length && !(a <= b < a + 4) ==> ram[b] == old(ram[b])
  {
    ram[a] := w % 0x100;
    ram[a + 1] := w / 0x100 % 0x100;
    ram[a + 2] := w / 0x1_0000 % 0x100;
    ram[a + 3] := w / 0x100_0000;
    Digits(w);
  }
}
