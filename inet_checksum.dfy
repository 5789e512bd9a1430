/**
  The Internet checksum of RFC 1071: the one's-complement of the
  one's-complement sum of the 16-bit words of a byte string.

  `ptclbsum`, which `ip_rcv` calls, is not part of this model; this module is
  the definition the model assumes for it. Words are read most significant
  byte first; since the one's-complement sum is independent of byte order
  (section 2 (B) of RFC 1071), comparing a stored field with a computed sum
  gives the same answer in either order as long as both are read alike.
*/
module InetChecksum {
  import opened Bytes

  /** The largest 16-bit value; one's-complement sums live in [0, MAX16]. */
  const MAX16: nat := 0xFFFF

  /** One's-complement addition of two 16-bit words (end-around carry). */
  function OnesAdd(a: nat, b: nat): (r: nat)
    requires a <= MAX16 && b <= MAX16
    ensures r <= MAX16
    ensures r % MAX16 == (a + b) % MAX16
    ensures r == 0 <==> a == 0 && b == 0
  {
    if a + b > MAX16 then a + b - MAX16 else a + b
  }

  /** The 16-bit word at byte offset `i` and `i + 1`. */
  function WordAt(h: seq<byte>, i: nat): nat
    requires i + 1 < |h|
  {
    Be16(h[i], h[i + 1])
  }

  /** One's-complement sum of the words of `h`. */
  function OnesSum(h: seq<byte>): (s: nat)
    requires |h| % 2 == 0
    ensures s <= MAX16
    decreases |h|
  {
    if |h| == 0 then 0 else OnesAdd(WordAt(h, 0), OnesSum(h[2..]))
  }

  /** The Internet checksum: the complement of the one's-complement sum. */
  function Checksum(h: seq<byte>): (c: nat)
    requires |h| % 2 == 0
    ensures c <= MAX16
    ensures c + OnesSum(h) == MAX16
  {
    MAX16 - OnesSum(h)
  }

  /** Reference definition: the plain integer sum of the words of `h`. */
  function WordTotal(h: seq<byte>): nat
    requires |h| % 2 == 0
    decreases |h|
  {
    if |h| == 0 then 0 else WordAt(h, 0) + WordTotal(h[2..])
  }

  /** The one's-complement sum agrees with the plain sum modulo 0xFFFF, and
      is zero only when every word is zero. */
  lemma {:induction false} OnesSumMatchesTotal(h: seq<byte>)
    requires |h| % 2 == 0
    ensures OnesSum(h) % MAX16 == WordTotal(h) % MAX16
    ensures OnesSum(h) == 0 <==> WordTotal(h) == 0
    decreases |h|
  {
    if |h| != 0 {
      OnesSumMatchesTotal(h[2..]);
      var w, s, t := WordAt(h, 0), OnesSum(h[2..]), WordTotal(h[2..]);
      ModAddCongruent(w, s, t);
    }
  }

  lemma ModAddCongruent(w: nat, s: nat, t: nat)
    requires s % MAX16 == t % MAX16
    ensures (w + s) % MAX16 == (w + t) % MAX16
  {
    var qs, qt := s / MAX16, t / MAX16;
    assert s == qs * MAX16 + s % MAX16;
    assert t == qt * MAX16 + t % MAX16;
    assert w + s == (w + t) + (qs - qt) * MAX16;
  }

  /** Changing one byte of `a` changes the plain word sum by that byte's
      difference, weighted by its position within its word. */
  lemma {:induction false} WordTotalUpdate(a: seq<byte>, b: seq<byte>, i: nat)
    requires |a| == |b| && |a| % 2 == 0 && i < |a|
    requires forall j :: 0 <= j < |a| && j != i ==> a[j] == b[j]
    ensures i % 2 == 0 ==> WordTotal(b) == WordTotal(a) + (b[i] as int - a[i] as int) * 0x100
    ensures i % 2 == 1 ==> WordTotal(b) == WordTotal(a) + (b[i] as int - a[i] as int)
    decreases |a|
  {
    if i < 2 {
      assert a[2..] == b[2..];
    } else {
      WordTotalUpdate(a[2..], b[2..], i - 2);
    }
  }

  /** A change of one byte by a single bit's value (in particular, any
      single-bit error) always changes the one's-complement sum. */
  lemma {:induction false} SingleBitChangesSum(a: seq<byte>, b: seq<byte>, i: nat)
    requires |a| == |b| && |a| % 2 == 0 && i < |a|
    requires forall j :: 0 <= j < |a| && j != i ==> a[j] == b[j]
    requires IsBitValue(b[i] as int - a[i] as int) || IsBitValue(a[i] as int - b[i] as int)
    ensures OnesSum(a) != OnesSum(b)
  {
    WordTotalUpdate(a, b, i);
    OnesSumMatchesTotal(a);
    OnesSumMatchesTotal(b);
    var diff := b[i] as int - a[i] as int;
    assert 1 <= diff <= 0x80 || -0x80 <= diff <= -1;
    if i % 2 == 0 {
      ScaledBitBound(diff);
    }
    DistinctModulo(WordTotal(a), WordTotal(b));
  }

  lemma ScaledBitBound(diff: int)
    requires 1 <= diff <= 0x80 || -0x80 <= diff <= -1
    ensures 1 <= diff * 0x100 <= 0x8000 || -0x8000 <= diff * 0x100 <= -1
  {
  }

  /** Two numbers closer than 0xFFFF but not equal differ modulo 0xFFFF. */
  lemma DistinctModulo(x: int, y: int)
    requires 1 <= y - x < MAX16 || 1 <= x - y < MAX16
    ensures x % MAX16 != y % MAX16
  {
    var qx, qy := x / MAX16, y / MAX16;
    assert x == qx * MAX16 + x % MAX16;
    assert y == qy * MAX16 + y % MAX16;
    if x % MAX16 == y % MAX16 {
      assert false;
    }
  }

  /** Receiver-side verification of section 1 of RFC 1071: when the word
      at `i` holds the checksum of the string with that word zeroed, the
      one's-complement sum over the whole string is all ones. */
  lemma {:induction false} ChecksumVerifies(h: seq<byte>, i: nat)
    requires |h| % 2 == 0 && i % 2 == 0 && i + 1 < |h|
    requires WordAt(h, i) == Checksum(h[i := 0][i + 1 := 0])
    ensures OnesSum(h) == MAX16
  {
    var z := h[i := 0][i + 1 := 0];
    WordTotalZeroed(h, i);
    OnesSumMatchesTotal(z);
    OnesSumMatchesTotal(h);
    AllOnesByCongruence(OnesSum(h), WordTotal(h), OnesSum(z), WordTotal(z), WordAt(h, i));
  }

  /** Zeroing the word at an even offset takes exactly that word out of the
      plain sum. */
  lemma {:induction false} WordTotalZeroed(h: seq<byte>, i: nat)
    requires |h| % 2 == 0 && i % 2 == 0 && i + 1 < |h|
    ensures WordTotal(h) == WordTotal(h[i := 0][i + 1 := 0]) + WordAt(h, i)
    decreases |h|
  {
    var z := h[i := 0][i + 1 := 0];
    if i == 0 {
      assert z[2..] == h[2..];
    } else {
      WordTotalZeroed(h[2..], i - 2);
      assert z[2..] == h[2..][i - 2 := 0][i - 1 := 0];
    }
  }

  /** Sender side of section 1 of RFC 1071: appending the checksum of `h`
      as one more word makes the one's-complement sum all ones. */
  lemma {:induction false} ChecksumCompletesSum(h: seq<byte>)
    requires |h| % 2 == 0
    ensures var c := Checksum(h);
      c / 0x100 < 0x100 && OnesSum(h + [c / 0x100, c % 0x100]) == MAX16
  {
    var c := Checksum(h);
    var hi: byte, lo: byte := c / 0x100, c % 0x100;
    var g := h + [hi, lo];
    WordTotalAppend(h, hi, lo);
    assert Be16(hi, lo) == c;
    OnesSumMatchesTotal(h);
    OnesSumMatchesTotal(g);
    AllOnesByCongruence(OnesSum(g), WordTotal(g), OnesSum(h), WordTotal(h), c);
  }

  /** Appending a word adds its value to the plain sum. */
  lemma {:induction false} WordTotalAppend(h: seq<byte>, hi: byte, lo: byte)
    requires |h| % 2 == 0
    ensures WordTotal(h + [hi, lo]) == WordTotal(h) + Be16(hi, lo)
    decreases |h|
  {
    if |h| == 0 {
      assert (h + [hi, lo])[2..] == [];
    } else {
      WordTotalAppend(h[2..], hi, lo);
      assert (h + [hi, lo])[2..] == h[2..] + [hi, lo];
    }
  }

  lemma AllOnesByCongruence(r: nat, total: nat, s: nat, t: nat, c: nat)
    requires r <= MAX16 && c + s == MAX16 && total == t + c
    requires s % MAX16 == t % MAX16 && (s == 0 <==> t == 0)
    requires r % MAX16 == total % MAX16 && (r == 0 <==> total == 0)
    ensures r == MAX16
  {
    ModAddCongruent(c, t, s);
  }
}
