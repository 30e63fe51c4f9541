/** Table-driven CRC-32 and the bit-by-bit division it stands for (tools/genwqe_vpd_common.c, lib/libcard.c). */
module Crc {
  import opened Bits
  import opened Words

  const VPD_POLYNOMIAL: bv32 := 0x04c11db7
  const DDCB_POLYNOMIAL: bv32 := 0x20044009

  // ---- words ----

  function Shl(r: bv32): bv32 {
    r << 1
  }

  function Shl8(r: bv32): bv32 {
    r << 8
  }

  function Xor(a: bv32, b: bv32): bv32 {
    a ^ b
  }

  predicate Msb(r: bv32) {
    r & 0x8000_0000 != 0
  }

  function Top(b: byte): bv32 {
    (b as bv32) << 24
  }

  // ---- bit-by-bit division ----

  /** The register moves up, and the polynomial is subtracted if a one falls out. */
  function Zero(poly: bv32, r: bv32): bv32 {
    if Msb(r) then Xor(Shl(r), poly) else Shl(r)
  }

  function Mask(bit: bool): bv32 {
    if bit then 0x8000_0000 else 0
  }

  function BitStep(poly: bv32, r: bv32, bit: bool): bv32 {
    Zero(poly, Xor(r, Mask(bit)))
  }

  /** The remainder after dividing the given bits, first bit first. */
  function Remainder(poly: bv32, r: bv32, bits: seq<bool>): bv32
    decreases |bits|
  {
    if bits == [] then r else Remainder(poly, BitStep(poly, r, bits[0]), bits[1..])
  }

  function MsbBits(b: byte): (r: seq<bool>)
    ensures |r| == 8
  {
    [Bit(b, 7), Bit(b, 6), Bit(b, 5), Bit(b, 4), Bit(b, 3), Bit(b, 2), Bit(b, 1), Bit(b, 0)]
  }

  /** The bits of a message in the order of division: most significant bit of each byte first. */
  function MsbFirst(s: seq<byte>): seq<bool> {
    if s == [] then [] else MsbBits(s[0]) + MsbFirst(s[1..])
  }

  function Crc(poly: bv32, init: bv32, s: seq<byte>): bv32 {
    Remainder(poly, init, MsbFirst(s))
  }

  // ---- byte by byte, with the table ----

  function Steps(poly: bv32, n: nat, r: bv32): bv32 {
    if n == 0 then r else Zero(poly, Steps(poly, n - 1, r))
  }

  /** Entry of the table for index b. */
  function Entry(poly: bv32, b: byte): bv32 {
    Steps(poly, 8, Top(b))
  }

  function Index(r: bv32, b: byte): byte {
    (((r >> 24) ^ (b as bv32)) & 0xff) as byte
  }

  function ByteStep(poly: bv32, r: bv32, b: byte): bv32 {
    Xor(Shl8(r), Entry(poly, Index(r, b)))
  }

  function Table(poly: bv32, r: bv32, s: seq<byte>): bv32
    decreases |s|
  {
    if s == [] then r else Table(poly, ByteStep(poly, r, s[0]), s[1..])
  }

  // ---- words, proofs ----

  lemma MsbXor(a: bv32, b: bv32)
    ensures Msb(Xor(a, b)) <==> Msb(a) != Msb(b)
  {
  }

  lemma ShlXor(a: bv32, b: bv32)
    ensures Shl(Xor(a, b)) == Xor(Shl(a), Shl(b))
  {
  }

  lemma XorAssoc(x: bv32, y: bv32, z: bv32)
    ensures Xor(Xor(x, y), z) == Xor(x, Xor(y, z))
  {
  }

  lemma XorCancel(x: bv32, y: bv32, p: bv32)
    ensures Xor(x, p) == Xor(y, p) ==> x == y
  {
  }

  lemma XorSwap(x: bv32, y: bv32)
    ensures Xor(x, y) == Xor(y, x)
  {
  }

  lemma XorTwice(x: bv32, y: bv32)
    ensures Xor(Xor(x, y), y) == x
  {
  }

  lemma ZeroLinear(poly: bv32, a: bv32, b: bv32)
    ensures Zero(poly, Xor(a, b)) == Xor(Zero(poly, a), Zero(poly, b))
  {
    MsbXor(a, b);
    ShlXor(a, b);
    XorBoth(Shl(a), Shl(b), poly);
    hide Shl, Msb, Xor;
  }

  lemma XorBoth(x: bv32, y: bv32, p: bv32)
    ensures Xor(Xor(x, p), Xor(y, p)) == Xor(x, y)
    ensures Xor(Xor(x, p), y) == Xor(Xor(x, y), p)
    ensures Xor(x, Xor(y, p)) == Xor(Xor(x, y), p)
  {
    XorAssoc(x, p, Xor(y, p));
    XorSwap(p, Xor(y, p));
    XorTwice(y, p);
    XorAssoc(x, p, y);
    XorSwap(p, y);
    XorAssoc(x, y, p);
    hide Xor;
  }

  lemma {:induction false} StepsLinear(poly: bv32, n: nat, a: bv32, b: bv32)
    ensures Steps(poly, n, Xor(a, b)) == Xor(Steps(poly, n, a), Steps(poly, n, b))
  {
    hide Zero, Xor;
    if n > 0 {
      StepsLinear(poly, n - 1, a, b);
      ZeroLinear(poly, Steps(poly, n - 1, a), Steps(poly, n - 1, b));
    }
  }

  lemma {:induction false} StepsAdd(poly: bv32, m: nat, n: nat, r: bv32)
    ensures Steps(poly, m, Steps(poly, n, r)) == Steps(poly, m + n, r)
    decreases m
  {
    hide Zero;
    if m > 0 {
      StepsAdd(poly, m - 1, n, r);
    }
  }

  /** An odd polynomial makes a step reversible: the lowest bit tells whether it was subtracted. */
  lemma ZeroInjective(poly: bv32, a: bv32, b: bv32)
    requires poly & 1 == 1 && Zero(poly, a) == Zero(poly, b)
    ensures a == b
  {
    LowestBit(poly, a);
    LowestBit(poly, b);
    XorCancel(Shl(a), Shl(b), poly);
    assert Msb(a) == Msb(b);
    assert Shl(a) == Shl(b) by {
      hide Shl, Msb, Xor;
    }
    hide Xor, Zero;
    HalvesMeet(a, b);
    hide Shl, Msb;
  }

  lemma LowestBit(poly: bv32, a: bv32)
    requires poly & 1 == 1
    ensures (Zero(poly, a) & 1 == 1) <==> Msb(a)
  {
  }

  lemma HalvesMeet(a: bv32, b: bv32)
    requires Msb(a) == Msb(b) && Shl(a) == Shl(b)
    ensures a == b
  {
  }

  lemma {:induction false} StepsInjective(poly: bv32, n: nat, a: bv32, b: bv32)
    requires poly & 1 == 1 && Steps(poly, n, a) == Steps(poly, n, b)
    ensures a == b
  {
    hide Zero;
    if n > 0 {
      ZeroInjective(poly, Steps(poly, n - 1, a), Steps(poly, n - 1, b));
      StepsInjective(poly, n - 1, a, b);
    }
  }

  lemma EightSteps(poly: bv32, r: bv32)
    ensures Steps(poly, 8, r) ==
            Zero(poly, Zero(poly, Zero(poly, Zero(poly, Zero(poly, Zero(poly, Zero(poly, Zero(poly, r))))))))
  {
    hide Zero, Steps;
    StepsNext(poly, 0, r);
    StepsNext(poly, 1, r);
    StepsNext(poly, 2, r);
    StepsNext(poly, 3, r);
    StepsNext(poly, 4, r);
    StepsNext(poly, 5, r);
    StepsNext(poly, 6, r);
    StepsNext(poly, 7, r);
  }

  lemma StepsNext(poly: bv32, n: nat, r: bv32)
    ensures Steps(poly, n + 1, r) == Zero(poly, Steps(poly, n, r)) && Steps(poly, 0, r) == r
  {
    hide Zero;
  }

  /** A register with an empty top byte only moves up. */
  lemma StepsLow(poly: bv32, a: bv32)
    requires a & 0xff00_0000 == 0
    ensures Steps(poly, 8, a) == Shl8(a)
  {
    EightSteps(poly, a);
    hide Steps;
  }

  // ---- one table look-up is eight steps ----

  function Low(r: bv32): bv32 {
    r & 0x00ff_ffff
  }

  lemma SplitRegister(r: bv32, b: byte)
    ensures Xor(r, Top(b)) == Xor(Top(Index(r, b)), Low(r))
    ensures Low(r) & 0xff00_0000 == 0 && Shl8(Low(r)) == Shl8(r)
  {
  }

  lemma ByteStepIsSteps(poly: bv32, r: bv32, b: byte)
    ensures ByteStep(poly, r, b) == Steps(poly, 8, Xor(r, Top(b)))
  {
    SplitRegister(r, b);
    StepsLow(poly, Low(r));
    hide Xor, Shl8, Top, Index, Low, Steps;
    var t := Top(Index(r, b));
    StepsLinear(poly, 8, t, Low(r));
    XorSwap(Shl8(r), Steps(poly, 8, t));
  }

  /** z is the register with all of the byte added at once, rem what of the byte is not divided yet. */
  lemma FeedStep(poly: bv32, reg: bv32, z: bv32, rem: bv32)
    requires reg == Xor(z, rem)
    ensures BitStep(poly, reg, Msb(rem)) == Xor(Zero(poly, z), Shl(rem))
  {
    var m := Mask(Msb(rem));
    XorAssoc(z, rem, m);
    ClearTop(poly, rem);
    hide Xor, Zero, Shl, Msb, Mask;
    ZeroLinear(poly, z, Xor(rem, m));
  }

  lemma ClearTop(poly: bv32, rem: bv32)
    ensures Zero(poly, Xor(rem, Mask(Msb(rem)))) == Shl(rem)
  {
    TopCleared(rem);
    hide Xor, Mask, Msb, Shl;
  }

  lemma TopCleared(rem: bv32)
    ensures !Msb(Xor(rem, Mask(Msb(rem)))) && Shl(Xor(rem, Mask(Msb(rem)))) == Shl(rem)
  {
    var m := Mask(Msb(rem));
    assert Msb(m) == Msb(rem) && Shl(m) == 0;
    MsbXor(rem, m);
    ShlXor(rem, m);
    NoChange(Shl(rem));
    hide Xor, Mask, Msb, Shl;
  }

  function ShlN(n: nat, r: bv32): bv32 {
    if n == 0 then r else Shl(ShlN(n - 1, r))
  }

  lemma TopBits(b: byte)
    ensures forall k: nat | k < 8 :: Msb(ShlN(k, Top(b))) == MsbBits(b)[k]
    ensures ShlN(8, Top(b)) == 0
  {
    hide Shl, Msb, Top, MsbBits, ShlN;
    Shifts(b);
    EightShifts(Top(b));
  }

  lemma EightShifts(r: bv32)
    ensures var r1 := Shl(r); var r2 := Shl(r1); var r3 := Shl(r2); var r4 := Shl(r3); var r5 := Shl(r4);
            var r6 := Shl(r5);
            && ShlN(0, r) == r && ShlN(1, r) == r1 && ShlN(2, r) == r2 && ShlN(3, r) == r3 && ShlN(4, r) == r4
            && ShlN(5, r) == r5 && ShlN(6, r) == r6 && ShlN(7, r) == Shl(r6) && ShlN(8, r) == Shl(Shl(r6))
  {
    hide Shl;
  }

  lemma Shifts(b: byte)
    ensures var t0 := Top(b); var t1 := Shl(t0); var t2 := Shl(t1); var t3 := Shl(t2);
            var t4 := Shl(t3); var t5 := Shl(t4); var t6 := Shl(t5); var t7 := Shl(t6);
            && MsbBits(b) == [Msb(t0), Msb(t1), Msb(t2), Msb(t3), Msb(t4), Msb(t5), Msb(t6), Msb(t7)]
            && Shl(t7) == 0
  {
  }

  /** Dividing the eight bits of a byte one by one is one table step. */
  lemma EightBits(poly: bv32, r: bv32, b: byte, tail: seq<bool>)
    ensures Remainder(poly, r, MsbBits(b) + tail) == Remainder(poly, ByteStep(poly, r, b), tail)
  {
    TopBits(b);
    ByteStepIsSteps(poly, r, b);
    hide Bit, Top, Xor, Zero, Shl, Msb, Mask, BitStep, ByteStep;
    var t, bits := Top(b), MsbBits(b);
    var x := Xor(r, t);
    XorTwice(r, t);
    assert bits[0..] == bits;
    hide MsbBits;
    var reg := r;
    for k := 0 to 8
      invariant reg == Xor(Steps(poly, k, x), ShlN(k, t))
      invariant Remainder(poly, r, bits + tail) == Remainder(poly, reg, bits[k..] + tail)
    {
      FeedStep(poly, reg, Steps(poly, k, x), ShlN(k, t));
      RemainderFirst(poly, reg, bits[k..] + tail);
      assert (bits[k..] + tail)[1..] == bits[k + 1..] + tail;
      reg := BitStep(poly, reg, bits[k]);
    }
    assert bits[8..] + tail == tail;
    NoChange(Steps(poly, 8, x));
  }

  lemma RemainderFirst(poly: bv32, r: bv32, bits: seq<bool>)
    requires bits != []
    ensures Remainder(poly, r, bits) == Remainder(poly, BitStep(poly, r, bits[0]), bits[1..])
  {
  }

  lemma NoChange(r: bv32)
    ensures Xor(r, 0) == r && Xor(0, r) == r && Xor(r, r) == 0
  {
  }

  /** The table-driven checksum is the bit-by-bit remainder, for every polynomial, start value and message. */
  lemma {:induction false} TableIsCrc(poly: bv32, r: bv32, s: seq<byte>)
    ensures Table(poly, r, s) == Crc(poly, r, s)
    decreases |s|
  {
    hide ByteStep, BitStep, MsbBits;
    if s != [] {
      EightBits(poly, r, s[0], MsbFirst(s[1..]));
      TableIsCrc(poly, ByteStep(poly, r, s[0]), s[1..]);
    }
  }

  // ---- properties of the checksum ----

  lemma {:induction false} TableConcat(poly: bv32, r: bv32, a: seq<byte>, b: seq<byte>)
    ensures Table(poly, r, a + b) == Table(poly, Table(poly, r, a), b)
    decreases |a|
  {
    hide ByteStep;
    if a == [] {
      assert a + b == b;
    } else {
      assert (a + b)[0] == a[0] && (a + b)[1..] == a[1..] + b;
      TableConcat(poly, ByteStep(poly, r, a[0]), a[1..], b);
    }
  }

  /** Piece by piece the checksum is that of the whole. */
  lemma CrcConcat(poly: bv32, r: bv32, a: seq<byte>, b: seq<byte>)
    ensures Crc(poly, r, a + b) == Crc(poly, Crc(poly, r, a), b)
  {
    TableConcat(poly, r, a, b);
    TableIsCrc(poly, r, a + b);
    TableIsCrc(poly, r, a);
    TableIsCrc(poly, Crc(poly, r, a), b);
    hide Table, Crc;
  }

  function CrcOfLines(poly: bv32, r: bv32, lines: seq<seq<byte>>): bv32
    decreases |lines|
  {
    if lines == [] then r else CrcOfLines(poly, Crc(poly, r, lines[0]), lines[1..])
  }

  /** The checksum carried from line to line is that of the whole buffer. */
  lemma {:induction false} LinesLikeWhole(poly: bv32, r: bv32, lines: seq<seq<byte>>)
    ensures CrcOfLines(poly, r, lines) == Crc(poly, r, Flatten(lines))
    decreases |lines|
  {
    hide Crc;
    if lines == [] {
      NothingToDivide(poly, r);
    } else {
      CrcConcat(poly, r, lines[0], Flatten(lines[1..]));
      LinesLikeWhole(poly, Crc(poly, r, lines[0]), lines[1..]);
    }
  }

  lemma NothingToDivide(poly: bv32, r: bv32)
    ensures Crc(poly, r, []) == r
  {
  }

  lemma {:induction false} StepsOfZero(poly: bv32, n: nat)
    ensures Steps(poly, n, 0) == 0
  {
    if n > 0 {
      StepsOfZero(poly, n - 1);
    }
  }

  /** The register's own top byte clears it. */
  lemma OwnByte(poly: bv32, r: bv32)
    ensures ByteStep(poly, r, ((r >> 24) & 0xff) as byte) == Shl8(r)
  {
    var b := ((r >> 24) & 0xff) as byte;
    OwnIndex(r);
    StepsOfZero(poly, 8);
    NoChange(Shl8(r));
    hide Xor, Shl8, Steps, Index;
    assert Top(0) == 0;
  }

  lemma OwnIndex(r: bv32)
    ensures Index(r, ((r >> 24) & 0xff) as byte) == 0
  {
  }

  lemma BytesOfShifted(r: bv32)
    ensures Be32(r) == [((r >> 24) & 0xff) as byte, ((Shl8(r) >> 24) & 0xff) as byte,
                        ((Shl8(Shl8(r)) >> 24) & 0xff) as byte, ((Shl8(Shl8(Shl8(r))) >> 24) & 0xff) as byte]
    ensures Shl8(Shl8(Shl8(Shl8(r)))) == 0
  {
  }

  lemma FourBytes(poly: bv32, r: bv32, b0: byte, b1: byte, b2: byte, b3: byte)
    ensures Table(poly, r, [b0, b1, b2, b3]) ==
            ByteStep(poly, ByteStep(poly, ByteStep(poly, ByteStep(poly, r, b0), b1), b2), b3)
  {
    hide ByteStep;
    var r1 := ByteStep(poly, r, b0);
    var r2 := ByteStep(poly, r1, b1);
    assert [b0, b1, b2, b3][1..] == [b1, b2, b3] && [b1, b2, b3][1..] == [b2, b3] && [b2, b3][1..] == [b3];
    assert Table(poly, r, [b0, b1, b2, b3]) == Table(poly, r1, [b1, b2, b3]);
    assert Table(poly, r1, [b1, b2, b3]) == Table(poly, r2, [b2, b3]);
    var r3 := ByteStep(poly, r2, b2);
    assert Table(poly, r2, [b2, b3]) == Table(poly, r3, [b3]);
    assert [b3][1..] == [];
    assert Table(poly, ByteStep(poly, r3, b3), []) == ByteStep(poly, r3, b3);
  }

  /** A message followed by its own big-endian checksum has checksum 0. */
  lemma OwnChecksumGivesZero(poly: bv32, init: bv32, s: seq<byte>)
    ensures Crc(poly, init, s + Be32(Crc(poly, init, s))) == 0
  {
    var r := Crc(poly, init, s);
    var w := Be32(r);
    CrcConcat(poly, init, s, w);
    TableIsCrc(poly, r, w);
    BytesOfShifted(r);
    OwnByte(poly, r);
    OwnByte(poly, Shl8(r));
    OwnByte(poly, Shl8(Shl8(r)));
    OwnByte(poly, Shl8(Shl8(Shl8(r))));
    hide Shl8, ByteStep, Crc, Be32;
    FourBytes(poly, r, w[0], w[1], w[2], w[3]);
  }

  // ---- changes that are always noticed ----

  function Place(b: byte, k: nat): bv32
    requires k < 4
  {
    if k == 0 then Top(b) else if k == 1 then (b as bv32) << 16 else if k == 2 then (b as bv32) << 8 else b as bv32
  }

  lemma PlaceSinks(poly: bv32, b: byte)
    ensures Steps(poly, 8, Place(b, 1)) == Top(b)
    ensures Steps(poly, 16, Place(b, 2)) == Top(b)
    ensures Steps(poly, 24, Place(b, 3)) == Top(b)
  {
    PlaceMoves(b);
    StepsLow(poly, Place(b, 1));
    StepsLow(poly, Place(b, 2));
    StepsLow(poly, Place(b, 3));
    hide Steps, Place, Shl8, Top;
    StepsAdd(poly, 8, 8, Place(b, 2));
    StepsAdd(poly, 16, 8, Place(b, 3));
  }

  lemma PlaceMoves(b: byte)
    ensures Place(b, 1) & 0xff00_0000 == 0 && Place(b, 2) & 0xff00_0000 == 0 && Place(b, 3) & 0xff00_0000 == 0
    ensures Shl8(Place(b, 1)) == Top(b) && Shl8(Place(b, 2)) == Place(b, 1) && Shl8(Place(b, 3)) == Place(b, 2)
  {
  }

  /** A byte that joins after n steps could have joined before them, further down. */
  lemma JoinEarly(poly: bv32, n: nat, x: bv32, b: byte, place: bv32)
    requires Steps(poly, n, place) == Top(b)
    ensures ByteStep(poly, Steps(poly, n, x), b) == Steps(poly, n + 8, Xor(x, place))
  {
    ByteStepIsSteps(poly, Steps(poly, n, x), b);
    StepsLinear(poly, n, x, place);
    StepsAdd(poly, 8, n, Xor(x, place));
  }

  lemma PlacesJoin(r: bv32, b0: byte, b1: byte, b2: byte, b3: byte)
    ensures Xor(Xor(Xor(Xor(r, Place(b0, 0)), Place(b1, 1)), Place(b2, 2)), Place(b3, 3)) ==
            Xor(r, Join(b0, b1, b2, b3))
  {
    var p0, p1, p2, p3 := Place(b0, 0), Place(b1, 1), Place(b2, 2), Place(b3, 3);
    DisjointPlaces(b0, b1, b2, b3);
    hide Xor, Place, Join;
    XorAssoc(r, p0, p1);
    XorAssoc(r, Xor(p0, p1), p2);
    XorAssoc(r, Xor(Xor(p0, p1), p2), p3);
  }

  lemma DisjointPlaces(b0: byte, b1: byte, b2: byte, b3: byte)
    ensures Xor(Xor(Xor(Place(b0, 0), Place(b1, 1)), Place(b2, 2)), Place(b3, 3)) == Join(b0, b1, b2, b3)
  {
  }

  /** Four table steps divide the register plus the big-endian word by 32 more bits. */
  lemma WordStep(poly: bv32, r: bv32, b0: byte, b1: byte, b2: byte, b3: byte)
    ensures Table(poly, r, [b0, b1, b2, b3]) == Steps(poly, 32, Xor(r, Join(b0, b1, b2, b3)))
  {
    FourBytes(poly, r, b0, b1, b2, b3);
    PlaceSinks(poly, b1);
    PlaceSinks(poly, b2);
    PlaceSinks(poly, b3);
    PlacesJoin(r, b0, b1, b2, b3);
    hide Table, ByteStep, Steps, Xor, Join;
    var x0 := Xor(r, Place(b0, 0));
    ByteStepIsSteps(poly, r, b0);
    hide Place, Top;
    var x1 := Xor(x0, Place(b1, 1));
    var x2 := Xor(x1, Place(b2, 2));
    JoinEarly(poly, 8, x0, b1, Place(b1, 1));
    JoinEarly(poly, 16, x1, b2, Place(b2, 2));
    JoinEarly(poly, 24, x2, b3, Place(b3, 3));
  }

  lemma {:induction false} TableInjective(poly: bv32, a: bv32, b: bv32, s: seq<byte>)
    requires poly & 1 == 1 && Table(poly, a, s) == Table(poly, b, s)
    ensures a == b
    decreases |s|
  {
    hide ByteStep;
    if s != [] {
      TableInjective(poly, ByteStep(poly, a, s[0]), ByteStep(poly, b, s[0]), s[1..]);
      ByteStepIsSteps(poly, a, s[0]);
      ByteStepIsSteps(poly, b, s[0]);
      hide Xor, Steps, Top, Table;
      StepsInjective(poly, 8, Xor(a, Top(s[0])), Xor(b, Top(s[0])));
      XorCancel(a, b, Top(s[0]));
    }
  }

  lemma WordInjective(poly: bv32, r: bv32, u: seq<byte>, v: seq<byte>)
    requires poly & 1 == 1 && |u| == |v| == 4 && Table(poly, r, u) == Table(poly, r, v)
    ensures u == v
  {
    assert u == [u[0], u[1], u[2], u[3]] && v == [v[0], v[1], v[2], v[3]];
    WordStep(poly, r, u[0], u[1], u[2], u[3]);
    WordStep(poly, r, v[0], v[1], v[2], v[3]);
    var a, b := Join(u[0], u[1], u[2], u[3]), Join(v[0], v[1], v[2], v[3]);
    JoinInjective(u[0], u[1], u[2], u[3]);
    JoinInjective(v[0], v[1], v[2], v[3]);
    hide Table, Steps, Xor, Join, Be32;
    StepsInjective(poly, 32, Xor(r, a), Xor(r, b));
    XorSwap(r, a);
    XorSwap(r, b);
    XorCancel(a, b, r);
  }

  /** With an odd polynomial, and both polynomials in use are odd, a change within four adjacent bytes changes the
      checksum. */
  lemma WordChangeDetected(poly: bv32, init: bv32, before: seq<byte>, u: seq<byte>, v: seq<byte>, after: seq<byte>)
    requires poly & 1 == 1 && |u| == |v| == 4 && u != v
    ensures Crc(poly, init, before + u + after) != Crc(poly, init, before + v + after)
    ensures VPD_POLYNOMIAL & 1 == 1 && DDCB_POLYNOMIAL & 1 == 1
  {
    hide Table;
    TableIsCrc(poly, init, before + u + after);
    TableIsCrc(poly, init, before + v + after);
    TableConcat(poly, init, before + u, after);
    TableConcat(poly, init, before, u);
    TableConcat(poly, init, before + v, after);
    TableConcat(poly, init, before, v);
    hide Crc;
    var r := Table(poly, init, before);
    if Crc(poly, init, before + u + after) == Crc(poly, init, before + v + after) {
      TableInjective(poly, Table(poly, r, u), Table(poly, r, v), after);
      WordInjective(poly, r, u, v);
    }
  }

  /** One step: the polynomial is subtracted exactly if the top bit and the bit of the message differ. */
  lemma DivisionStep(poly: bv32, r: bv32, bit: bool)
    ensures ((r >> 31) & 1 == 1) != bit ==> BitStep(poly, r, bit) == (r << 1) ^ poly
    ensures ((r >> 31) & 1 == 1) == bit ==> BitStep(poly, r, bit) == r << 1
  {
    hide Msb, Xor, Shl;
    TopBitOut(r, poly);
    MsbXor(r, Mask(bit));
    NoChange(r);
  }

  lemma TopBitOut(r: bv32, poly: bv32)
    ensures Msb(r) <==> (r >> 31) & 1 == 1
    ensures Shl(Xor(r, 0x8000_0000)) == r << 1 == Shl(r) && Xor(Shl(r), poly) == (r << 1) ^ poly
    ensures Msb(0x8000_0000) && !Msb(0)
  {
  }

  /** Bit i of the division is bit 7 - i % 8 of byte i / 8. */
  lemma {:induction false} DivisionOrder(s: seq<byte>, i: nat)
    requires i < 8 * |s|
    ensures |MsbFirst(s)| == 8 * |s| && MsbFirst(s)[i] == Bit(s[i / 8], 7 - i % 8)
    decreases |s|
  {
    hide Bit;
    assert i < 8 ==> i in {0, 1, 2, 3, 4, 5, 6, 7};
    if |s| > 1 {
      DivisionOrder(s[1..], if i < 8 then 0 else i - 8);
    }
  }

  /** The example given for the card's checksum. */
  lemma DocumentedExample()
    ensures Crc(DDCB_POLYNOMIAL, 0xffff_ffff, [0x01, 0x02, 0x03, 0x04]) == 0xf33c_b7d3
  {
    var poly: bv32 := 0x2004_4009;
    TableIsCrc(poly, 0xffff_ffff, [0x01, 0x02, 0x03, 0x04]);
    WordStep(poly, 0xffff_ffff, 0x01, 0x02, 0x03, 0x04);
    assert Xor(0xffff_ffff, Join(0x01, 0x02, 0x03, 0x04)) == 0xfefd_fcfb;
    hide Crc, Table, Join, Xor, Steps;
    FirstSteps();
    LastSteps();
    StepsAdd(poly, 8, 8, 0xfefd_fcfb);
    StepsAdd(poly, 8, 16, 0xfefd_fcfb);
    StepsAdd(poly, 8, 24, 0xfefd_fcfb);
  }

  lemma FirstSteps()
    ensures Steps(0x2004_4009, 8, 0xfefd_fcfb) == 0xbe4c_7cf2
    ensures Steps(0x2004_4009, 8, 0xbe4c_7cf2) == 0x2efa_37f3
  {
  }

  lemma LastSteps()
    ensures Steps(0x2004_4009, 8, 0x2efa_37f3) == 0x9a91_3273
    ensures Steps(0x2004_4009, 8, 0x9a91_3273) == 0xf33c_b7d3
  {
  }

  /** The two polynomials by their powers of x below the 32nd: the one of IEEE 802.3, and that of the card. */
  lemma Polynomials(i: nat)
    requires i < 32
    ensures (VPD_POLYNOMIAL >> i) & 1 == 1 <==> i in {26, 23, 22, 16, 12, 11, 10, 8, 7, 5, 4, 2, 1, 0}
    ensures (DDCB_POLYNOMIAL >> i) & 1 == 1 <==> i in {29, 18, 14, 3, 0}
  {
    if i < 16 {
      assert i in {0, 1, 2, 3, 4, 5, 6, 7} || i in {8, 9, 10, 11, 12, 13, 14, 15};
    } else {
      assert i in {16, 17, 18, 19, 20, 21, 22, 23} || i in {24, 25, 26, 27, 28, 29, 30, 31};
    }
  }

  // ---- the code ----

  function Nth(i: nat): byte
    requires i < 256
  {
    i as byte
  }

  lemma NthOfIndex(b: byte)
    ensures (b as nat) < 256 && Nth(b as nat) == b
  {
  }

  class CrcTable {
    const poly: bv32
    const lut: array<bv32>

    constructor (poly: bv32)
      ensures this.poly == poly && lut.Length == 256 && fresh(lut)
    {
      this.poly := poly;
      lut := new bv32[256];
    }

    ghost predicate Ready()
      reads lut
    {
      lut.Length == 256 && forall i: nat | i < 256 :: lut[i] == Entry(poly, Nth(i))
    }

    /** genwqe_crc32_setup_lut and ddcb_setup_crc32, which differ in the polynomial. */
    method SetupLut()
      requires lut.Length == 256
      modifies lut
      ensures Ready()
    {
      hide Zero, Msb, Shl, Xor, Top, Nth, Steps;
      for i := 0 to 256
        invariant forall k: nat | k < i :: lut[k] == Entry(poly, Nth(k))
      {
        var crc := Top(Nth(i));
        StepsNext(poly, 0, crc);
        for j := 0 to 8
          invariant crc == Steps(poly, j, Top(Nth(i)))
          invariant forall k: nat | k < i :: lut[k] == Entry(poly, Nth(k))
        {
          StepsNext(poly, j, Top(Nth(i)));
          crc := ShiftOnce(crc);
        }
        lut[i] := crc;
      }
    }

    method ShiftOnce(crc: bv32) returns (r: bv32)
      ensures r == Zero(poly, crc)
    {
      hide Xor;
      if crc & 0x8000_0000 != 0 {
        r := Xor(crc << 1, poly);
      } else {
        r := crc << 1;
      }
    }

    /** genwqe_crc32_gen and genwqe_ddcb_crc32: the remainder of the whole message. */
    method Gen(buff: seq<byte>, init: bv32) returns (crc: bv32)
      requires Ready()
      ensures crc == Crc(poly, init, buff)
    {
      hide Entry, Index, Xor, Shl8, Nth, ByteStep;
      crc := init;
      assert buff[..0] == [];
      for n := 0 to |buff|
        invariant crc == Table(poly, init, buff[..n])
      {
        ghost var was := crc;
        crc := NextCrc(crc, buff[n]);
        assert buff[..n + 1] == buff[..n] + [buff[n]];
        TableConcat(poly, init, buff[..n], [buff[n]]);
        TableOne(poly, was, buff[n]);
      }
      assert buff[..|buff|] == buff;
      TableIsCrc(poly, init, buff);
    }

    method NextCrc(crc: bv32, b: byte) returns (r: bv32)
      requires Ready()
      ensures r == ByteStep(poly, crc, b)
    {
      hide Entry, Index, Xor, Shl8, Nth;
      var i := Index(crc, b);
      NthOfIndex(i);
      r := Xor(Shl8(crc), lut[i as nat]);
    }
  }

  lemma TableOne(poly: bv32, r: bv32, b: byte)
    ensures Table(poly, r, [b]) == ByteStep(poly, r, b)
  {
    hide ByteStep;
    assert [b][1..] == [];
  }
}
