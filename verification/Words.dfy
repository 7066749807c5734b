/** Eight bytes as a long, and the test of migration/xbzrle.c for a zero byte in one. */
module Words {
  import opened Prelude

  /** sizeof(long) on a 64-bit host. */
  const WORD := 8

  type digit = x: int | 0 <= x < 16

  function Digit(x: digit): bv64 {
    (x as bv4) as bv64
  }

  /** A byte, by its two hexadecimal digits. */
  function Wide(x: byte): bv64 {
    (Digit(x / 16) << 4) | Digit(x % 16)
  }

  /** The long that a little-endian host loads at i. */
  function Word(a: seq<byte>, i: nat): bv64
    requires i + WORD <= |a|
  {
    Wide(a[i]) | (Wide(a[i + 1]) << 8) | (Wide(a[i + 2]) << 16) | (Wide(a[i + 3]) << 24)
    | (Wide(a[i + 4]) << 32) | (Wide(a[i + 5]) << 40) | (Wide(a[i + 6]) << 48) | (Wide(a[i + 7]) << 56)
  }

  /** The mask test of the run of differing bytes. */
  predicate HasZeroByte(x: bv64) {
    (x - 0x0101010101010101) & !x & 0x8080808080808080 != 0
  }

  lemma DigitBack(x: digit)
    ensures (x as bv4) as int == x
  {
  }

  lemma WideSame(x: bv4, y: bv4)
    ensures x as bv64 == y as bv64 ==> x == y
    ensures x as bv64 <= 0xf
  {
  }

  lemma DigitEqual(x: digit, y: digit)
    ensures Digit(x) == Digit(y) <==> x == y
    ensures Digit(x) <= 0xf
  {
    DigitBack(x);
    DigitBack(y);
    WideSame(x as bv4, y as bv4);
  }

  lemma DigitsSame(h: bv64, l: bv64, h': bv64, l': bv64)
    requires h <= 0xf && l <= 0xf && h' <= 0xf && l' <= 0xf
    ensures (h << 4) | l <= 0xff
    ensures (h << 4) | l == (h' << 4) | l' ==> h == h' && l == l'
  {
  }

  lemma WideEqual(x: byte, y: byte)
    ensures Wide(x) == Wide(y) <==> x == y
    ensures Wide(x) <= 0xff && Wide(y) <= 0xff
  {
    DigitEqual(x / 16, y / 16);
    DigitEqual(x % 16, y % 16);
    DigitEqual(y / 16, x / 16);
    DigitEqual(y % 16, x % 16);
    DigitsSame(Digit(x / 16), Digit(x % 16), Digit(y / 16), Digit(y % 16));
    DigitsSame(Digit(y / 16), Digit(y % 16), Digit(x / 16), Digit(x % 16));
  }

  /** The test finds a zero byte just when there is one. */
  lemma ZeroByteTest(x: bv64)
    ensures HasZeroByte(x)
       <==> x & 0xff == 0 || x & 0xff00 == 0 || x & 0xff0000 == 0 || x & 0xff000000 == 0
            || x & 0xff00000000 == 0 || x & 0xff0000000000 == 0
            || x & 0xff000000000000 == 0 || x & 0xff00000000000000 == 0
  {
  }

  /** A byte of the exclusive or is zero just when the two bytes are equal. */
  lemma ZeroBytes(a0: bv64, a1: bv64, a2: bv64, a3: bv64, a4: bv64, a5: bv64, a6: bv64, a7: bv64,
                  b0: bv64, b1: bv64, b2: bv64, b3: bv64, b4: bv64, b5: bv64, b6: bv64, b7: bv64, x: bv64)
    requires a0 <= 0xff && a1 <= 0xff && a2 <= 0xff && a3 <= 0xff
    requires a4 <= 0xff && a5 <= 0xff && a6 <= 0xff && a7 <= 0xff
    requires b0 <= 0xff && b1 <= 0xff && b2 <= 0xff && b3 <= 0xff
    requires b4 <= 0xff && b5 <= 0xff && b6 <= 0xff && b7 <= 0xff
    requires x == (a0 | (a1 << 8) | (a2 << 16) | (a3 << 24) | (a4 << 32) | (a5 << 40) | (a6 << 48) | (a7 << 56))
                  ^ (b0 | (b1 << 8) | (b2 << 16) | (b3 << 24) | (b4 << 32) | (b5 << 40) | (b6 << 48) | (b7 << 56))
    ensures && (x & 0xff == 0 <==> a0 == b0) && (x & 0xff00 == 0 <==> a1 == b1)
            && (x & 0xff0000 == 0 <==> a2 == b2) && (x & 0xff000000 == 0 <==> a3 == b3)
            && (x & 0xff00000000 == 0 <==> a4 == b4) && (x & 0xff0000000000 == 0 <==> a5 == b5)
            && (x & 0xff000000000000 == 0 <==> a6 == b6) && (x & 0xff00000000000000 == 0 <==> a7 == b7)
  {
  }

  lemma SomeSame(a0: bv64, a1: bv64, a2: bv64, a3: bv64, a4: bv64, a5: bv64, a6: bv64, a7: bv64,
                 b0: bv64, b1: bv64, b2: bv64, b3: bv64, b4: bv64, b5: bv64, b6: bv64, b7: bv64, x: bv64)
    requires a0 <= 0xff && a1 <= 0xff && a2 <= 0xff && a3 <= 0xff
    requires a4 <= 0xff && a5 <= 0xff && a6 <= 0xff && a7 <= 0xff
    requires b0 <= 0xff && b1 <= 0xff && b2 <= 0xff && b3 <= 0xff
    requires b4 <= 0xff && b5 <= 0xff && b6 <= 0xff && b7 <= 0xff
    requires x == (a0 | (a1 << 8) | (a2 << 16) | (a3 << 24) | (a4 << 32) | (a5 << 40) | (a6 << 48) | (a7 << 56))
                  ^ (b0 | (b1 << 8) | (b2 << 16) | (b3 << 24) | (b4 << 32) | (b5 << 40) | (b6 << 48) | (b7 << 56))
    ensures HasZeroByte(x)
       <==> a0 == b0 || a1 == b1 || a2 == b2 || a3 == b3 || a4 == b4 || a5 == b5 || a6 == b6 || a7 == b7
  {
    ZeroBytes(a0, a1, a2, a3, a4, a5, a6, a7, b0, b1, b2, b3, b4, b5, b6, b7, x);
    ZeroByteTest(x);
  }

  /** The test on the exclusive or of two words: some byte is the same in both. */
  lemma WordTest(a: seq<byte>, b: seq<byte>, i: nat)
    requires i + WORD <= |a| && i + WORD <= |b|
    ensures HasZeroByte(Word(a, i) ^ Word(b, i)) <==> exists m | i <= m < i + WORD :: a[m] == b[m]
  {
    forall k | i <= k < i + WORD
      ensures Wide(a[k]) <= 0xff && Wide(b[k]) <= 0xff && (Wide(a[k]) == Wide(b[k]) <==> a[k] == b[k])
    {
      WideEqual(a[k], b[k]);
    }
    SomeSame(Wide(a[i]), Wide(a[i + 1]), Wide(a[i + 2]), Wide(a[i + 3]),
             Wide(a[i + 4]), Wide(a[i + 5]), Wide(a[i + 6]), Wide(a[i + 7]),
             Wide(b[i]), Wide(b[i + 1]), Wide(b[i + 2]), Wide(b[i + 3]),
             Wide(b[i + 4]), Wide(b[i + 5]), Wide(b[i + 6]), Wide(b[i + 7]), Word(a, i) ^ Word(b, i));
  }
}
