/** Octets, as the driver (`uint8_t`) and the IP layer (`unsigned char`) see memory. */
module Bytes {

  type byte = x: int | 0 <= x < 0x100

  /** The 16-bit value of two bytes in network order (most significant first). */
  function Be16(a: byte, b: byte): (w: nat)
    ensures w < 0x1_0000
  {
    a as int * 0x100 + b as int
  }

  /** A 16-bit value splits back into the two bytes it was made of. */
  lemma Be16Split(a: byte, b: byte)
    ensures Be16(a, b) / 0x100 == a && Be16(a, b) % 0x100 == b
  {
  }

  /** The 32-bit value of four bytes in network order. */
  function Be32(a: byte, b: byte, c: byte, d: byte): (w: nat)
    ensures w < 0x1_0000_0000
  {
    Be16(a, b) * 0x1_0000 + Be16(c, d)
  }

  /** Division by a byte-aligned power of two recovers quotient and remainder. */
  lemma DivMod(q: nat, r: nat, m: nat)
    requires m == 0x100 || m == 0x1_0000 || m == 0x100_0000
    requires r < m
    ensures (q * m + r) / m == q && (q * m + r) % m == r
  {
    if m == 0x100 {
      assert q * m + r == q * 0x100 + r;
    } else if m == 0x1_0000 {
      assert q * m + r == q * 0x1_0000 + r;
    } else {
      assert q * m + r == q * 0x100_0000 + r;
    }
  }

  /** A 32-bit value splits back into the four bytes it was made of. */
  lemma Be32Split(a: byte, b: byte, c: byte, d: byte)
    ensures var w := Be32(a, b, c, d);
      w / 0x100_0000 == a && w / 0x1_0000 % 0x100 == b && w / 0x100 % 0x100 == c && w % 0x100 == d
  {
    var w := Be32(a, b, c, d);
    DivMod(a, b * 0x1_0000 + c * 0x100 + d, 0x100_0000);
    DivMod(Be16(a, b), Be16(c, d), 0x1_0000);
    Be16Split(a, b);
    DivMod(a * 0x1_0000 + b * 0x100 + c, d, 0x100);
    DivMod(Be16(a, b), c, 0x100);
  }

  /** True when `d` is the value of a single bit of a byte, so that a byte
      changing by `d` or `-d` has had one bit set or cleared. */
  predicate IsBitValue(d: int) {
    d == 1 || d == 2 || d == 4 || d == 8 || d == 16 || d == 32 || d == 64 || d == 128
  }
}
