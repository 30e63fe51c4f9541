/** Byte images of 32-bit words and the optional values of C pointers. */
module Words {
  import opened Bits

  datatype Option<+T> = None | Some(value: T)

  /** The bytes of a word stored by __cpu_to_le32. */
  function Le32(x: bv32): (s: seq<byte>)
    ensures |s| == 4
  {
    [(x & 0xff) as byte, ((x >> 8) & 0xff) as byte, ((x >> 16) & 0xff) as byte, ((x >> 24) & 0xff) as byte]
  }

  function Be32(x: bv32): (s: seq<byte>)
    ensures |s| == 4
  {
    [((x >> 24) & 0xff) as byte, ((x >> 16) & 0xff) as byte, ((x >> 8) & 0xff) as byte, (x & 0xff) as byte]
  }

  function Le16(x: bv16): (s: seq<byte>)
    ensures |s| == 2
  {
    [(x & 0xff) as byte, ((x >> 8) & 0xff) as byte]
  }

  function Join(a: byte, b: byte, c: byte, d: byte): bv32 {
    ((a as bv32) << 24) | ((b as bv32) << 16) | ((c as bv32) << 8) | (d as bv32)
  }

  /** A byte as a number. */
  function Value(b: byte): (n: nat)
    ensures n < 256
  {
    b as nat
  }

  function Octet(n: nat): byte {
    (n % 256) as byte
  }

  /** A counter truncated to 32 bits. */
  function Low32(n: nat): bv32 {
    Join(Octet(n / 256 / 256 / 256), Octet(n / 256 / 256), Octet(n / 256), Octet(n))
  }

  /** The word whose big-endian image is s. */
  function FromBe32(s: seq<byte>): bv32
    requires |s| == 4
  {
    Join(s[0], s[1], s[2], s[3])
  }

  function FromLe32(s: seq<byte>): bv32
    requires |s| == 4
  {
    Join(s[3], s[2], s[1], s[0])
  }

  // ---- what the images are, bit by bit ----

  predicate Bit16(x: bv16, i: nat)
    requires i < 16
  {
    (x >> i) & 1 == 1
  }

  predicate Bit32(x: bv32, i: nat)
    requires i < 32
  {
    (x >> i) & 1 == 1
  }

  lemma BitIsShift(b: byte, i: nat)
    requires i < 8
    ensures Bit(b, i) <==> (b >> i) & 1 == 1
  {
    assert i in {0, 1, 2, 3, 4, 5, 6, 7};
  }

  /** The little-endian images begin with the low byte. */
  lemma Le16Bits(x: bv16, i: nat)
    requires i < 16
    ensures Bit(Le16(x)[i / 8], i % 8) == Bit16(x, i)
  {
    assert i in {0, 1, 2, 3, 4, 5, 6, 7} || i in {8, 9, 10, 11, 12, 13, 14, 15};
  }

  /** The big-endian image is the little-endian one from its end. */
  lemma WordBits(x: bv32, i: nat)
    requires i < 32
    ensures Bit(Le32(x)[i / 8], i % 8) == Bit32(x, i) == Bit(Be32(x)[3 - i / 8], i % 8)
  {
    hide Bit, Bit32;
    if i < 8 {
      FirstByteBits(x, i);
    } else if i < 16 {
      SecondByteBits(x, i);
    } else if i < 24 {
      ThirdByteBits(x, i);
    } else {
      LastByteBits(x, i);
    }
  }

  lemma FirstByteBits(x: bv32, i: nat)
    requires i < 8
    ensures Bit((x & 0xff) as byte, i) == Bit32(x, i)
  {
    assert i in {0, 1, 2, 3, 4, 5, 6, 7};
  }

  lemma SecondByteBits(x: bv32, i: nat)
    requires 8 <= i < 16
    ensures Bit(((x >> 8) & 0xff) as byte, i - 8) == Bit32(x, i)
  {
    if i < 12 {
      assert i in {8, 9, 10, 11};
    } else {
      assert i in {12, 13, 14, 15};
    }
  }

  lemma ThirdByteBits(x: bv32, i: nat)
    requires 16 <= i < 24
    ensures Bit(((x >> 16) & 0xff) as byte, i - 16) == Bit32(x, i)
  {
    assert i in {16, 17, 18, 19, 20, 21, 22, 23};
  }

  lemma LastByteBits(x: bv32, i: nat)
    requires 24 <= i < 32
    ensures Bit(((x >> 24) & 0xff) as byte, i - 24) == Bit32(x, i)
  {
    assert i in {24, 25, 26, 27, 28, 29, 30, 31};
  }

  lemma OctetValue(n: nat)
    ensures Value(Octet(n)) == n % 256
  {
    ByteValue(n % 256);
  }

  lemma ByteValue(n: nat)
    requires n < 256
    ensures Value(n as byte) == n
  {
  }

  /** The truncated counter holds the lower four digits to the base 256. */
  lemma CounterBytes(n: nat)
    ensures var s := Le32(Low32(n));
            && Value(s[0]) == n % 256 && Value(s[1]) == n / 256 % 256
            && Value(s[2]) == n / 256 / 256 % 256 && Value(s[3]) == n / 256 / 256 / 256 % 256
  {
    hide Value, Octet, Le32, Be32, Join;
    JoinInjective(Octet(n / 256 / 256 / 256), Octet(n / 256 / 256), Octet(n / 256), Octet(n));
    BackToFront(Low32(n));
    OctetValue(n / 256 / 256 / 256);
    OctetValue(n / 256 / 256);
    OctetValue(n / 256);
    OctetValue(n);
  }

  lemma BackToFront(x: bv32)
    ensures var s, t := Le32(x), Be32(x); s == [t[3], t[2], t[1], t[0]]
  {
  }

  lemma WordRoundTrip(x: bv32)
    ensures FromLe32(Le32(x)) == x && FromBe32(Be32(x)) == x
  {
  }

  lemma JoinInjective(a: byte, b: byte, c: byte, d: byte)
    ensures Be32(Join(a, b, c, d)) == [a, b, c, d]
  {
  }
}
