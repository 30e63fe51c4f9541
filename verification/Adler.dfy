/** Adler-32 and the preset-dictionary handshake built on it (lib/libzHW.c, lib/deflate.c, lib/inflate.c). */
module Adler {
  import opened Bits
  import opened Words

  const BASE := 65521 // largest prime below 65536
  const HALF := 0x1_0000
  const ZEDC_DICT_LEN := 0x8000 + 16

  // ---- what the sums stand for (RFC 1950, section 8.2) ----

  function Sum(s: seq<byte>): nat {
    if s == [] then 0 else Value(s[0]) + Sum(s[1..])
  }

  /** Each byte times the number of bytes from it to the end. */
  function Weighted(s: seq<byte>): nat {
    if s == [] then 0 else |s| * Value(s[0]) + Weighted(s[1..])
  }

  // ---- the checksum, byte by byte ----

  function Mod(n: int): (r: nat)
    ensures r < BASE
  {
    n % BASE
  }

  /** Both sums over s from the given ones. */
  function Sums(s1: nat, s2: nat, s: seq<byte>): (nat, nat)
    decreases |s|
  {
    if s == [] then (s1, s2)
    else
      var t1 := Mod(s1 + Value(s[0]));
      Sums(t1, Mod(s2 + t1), s[1..])
  }

  /** The two halves of a checksum. */
  function Lower(adler: nat): (s1: nat)
    ensures s1 < HALF
  {
    adler % HALF
  }

  function Upper(adler: nat): (s2: nat)
    ensures s2 < HALF
  {
    adler / HALF % HALF
  }

  lemma Halves(s1: nat, s2: nat)
    requires s1 < HALF && s2 < HALF
    ensures Lower(s2 * HALF + s1) == s1 && Upper(s2 * HALF + s1) == s2
  {
  }

  function Checksum(adler: nat, s: seq<byte>): nat {
    var (s1, s2) := Sums(Lower(adler), Upper(adler), s);
    s2 * HALF + s1
  }

  lemma {:induction false} SumsConcat(s1: nat, s2: nat, a: seq<byte>, b: seq<byte>)
    ensures Sums(s1, s2, a + b) == Sums(Sums(s1, s2, a).0, Sums(s1, s2, a).1, b)
    decreases |a|
  {
    hide Value, Mod;
    if a == [] {
      assert a + b == b;
    } else {
      assert (a + b)[0] == a[0] && (a + b)[1..] == a[1..] + b;
      var t1 := Mod(s1 + Value(a[0]));
      SumsConcat(t1, Mod(s2 + t1), a[1..], b);
    }
  }

  lemma {:induction false} SumsFit(s1: nat, s2: nat, s: seq<byte>)
    ensures s1 < HALF && s2 < HALF ==> Sums(s1, s2, s).0 < HALF && Sums(s1, s2, s).1 < HALF
    ensures s != [] ==> Sums(s1, s2, s).0 < BASE && Sums(s1, s2, s).1 < BASE
    decreases |s|
  {
    hide Value, Mod;
    if s != [] {
      var t1 := Mod(s1 + Value(s[0]));
      SumsFit(t1, Mod(s2 + t1), s[1..]);
    }
  }

  lemma Multiple(a: int, k: int)
    ensures Mod(a - BASE * k) == Mod(a)
  {
  }

  lemma Reduced(a: int) returns (k: int)
    ensures Mod(a) == a - BASE * k
  {
    k := a / BASE;
  }

  /** The sums in closed form: n bytes add Sum to the first, and n times the first plus Weighted to the second. */
  lemma {:induction false} ClosedForm(s1: nat, s2: nat, s: seq<byte>)
    ensures Mod(Sums(s1, s2, s).0) == Mod(s1 + Sum(s))
    ensures Mod(Sums(s1, s2, s).1) == Mod(s2 + |s| * s1 + Weighted(s))
    decreases |s|
  {
    hide Value, Mod;
    if s == [] {
      assert |s| * s1 == 0;
    } else {
      var b, rest := Value(s[0]), s[1..];
      var t1 := Mod(s1 + b);
      ClosedForm(t1, Mod(s2 + t1), rest);
      FirstSum(s1 + b, Sum(rest));
      SecondSum(s1, s2, b, |rest|, Weighted(rest));
    }
  }

  lemma FirstSum(a: nat, b: nat)
    ensures Mod(Mod(a) + b) == Mod(a + b)
  {
    var k := Reduced(a);
    Multiple(a + b, k);
    hide Mod;
  }

  lemma SecondSum(s1: nat, s2: nat, b: nat, n: nat, w: nat)
    ensures Mod(Mod(s2 + Mod(s1 + b)) + n * Mod(s1 + b) + w) == Mod(s2 + (n + 1) * s1 + ((n + 1) * b + w))
  {
    hide Mod;
    var x := s1 + b;
    var q := Reduced(x);
    var r := Reduced(s2 + Mod(x));
    Scaled(n, x, q);
    Scaled(n + 1, s1, 0);
    Spread(n, s1, b);
    Multiple(s2 + x + n * x + w, q + r + n * q);
    Times(q, r, n * q);
  }

  lemma Scaled(n: nat, x: nat, q: int)
    ensures n * (x - BASE * q) == n * x - BASE * (n * q)
  {
  }

  lemma Spread(n: nat, a: nat, b: nat)
    ensures (a + b) + n * (a + b) == (n + 1) * a + (n + 1) * b
  {
  }

  lemma Times(a: int, b: int, c: int)
    ensures BASE * (a + b + c) == BASE * a + BASE * b + BASE * c
  {
  }

  lemma ClosedHalves(adler: nat, s: seq<byte>)
    requires s != []
    ensures Lower(Checksum(adler, s)) == Mod(Lower(adler) + Sum(s))
    ensures Upper(Checksum(adler, s)) == Mod(Upper(adler) + |s| * Lower(adler) + Weighted(s))
    ensures Checksum(adler, s) < HALF * HALF
  {
    var s1, s2 := Lower(adler), Upper(adler);
    ClosedForm(s1, s2, s);
    SumsFit(s1, s2, s);
    var (t1, t2) := Sums(s1, s2, s);
    Halves(t1, t2);
    assert Mod(t1) == t1 && Mod(t2) == t2;
    hide Sums, Sum, Weighted, Lower, Upper, Mod;
  }

  /** Adler-32 of a non-empty text: both halves in closed form. */
  lemma ChecksumClosedForm(adler: nat, s: seq<byte>)
    requires s != []
    ensures Checksum(adler, s) % 0x1_0000 == (adler % 0x1_0000 + Sum(s)) % 65521
    ensures Checksum(adler, s) / 0x1_0000 ==
            (adler / 0x1_0000 % 0x1_0000 + |s| * (adler % 0x1_0000) + Weighted(s)) % 65521
  {
    hide Sums, Sum, Weighted, Checksum;
    ClosedHalves(adler, s);
    var c := Checksum(adler, s);
    assert c / 0x1_0000 == Upper(c);
  }

  lemma NothingAdded(adler: nat)
    requires adler < 0x1_0000_0000
    ensures Checksum(adler, []) == adler
  {
  }

  /** The checksum of a text is that of its second part, started with that of the first. */
  lemma ChecksumConcat(adler: nat, a: seq<byte>, b: seq<byte>)
    ensures Checksum(Checksum(adler, a), b) == Checksum(adler, a + b)
    ensures Checksum(adler, a) < HALF * HALF
  {
    hide Sums, Lower, Upper;
    var s1, s2 := Lower(adler), Upper(adler);
    SumsFit(s1, s2, a);
    SumsConcat(s1, s2, a, b);
    Halves(Sums(s1, s2, a).0, Sums(s1, s2, a).1);
  }

  /** __adler32. */
  method Adler32(adler: nat, buf: seq<byte>) returns (r: nat)
    ensures r == Checksum(adler, buf)
  {
    hide Value, Mod;
    var s1: nat := Lower(adler);
    var s2: nat := Upper(adler);
    ghost var a1, a2 := s1, s2;
    assert buf[0..] == buf;
    for n := 0 to |buf|
      invariant Sums(a1, a2, buf) == Sums(s1, s2, buf[n..])
    {
      assert buf[n..][1..] == buf[n + 1..];
      s1 := Mod(s1 + Value(buf[n]));
      s2 := Mod(s2 + s1);
    }
    return s2 * HALF + s1;
  }

  /** The identifier of a preset dictionary. */
  function DictId(dictionary: seq<byte>): bv32 {
    Low32(Checksum(1, dictionary))
  }

  /** Its upper and its lower half are the sums over a text that begins with the value 1. */
  lemma IdClosedForm(dictionary: seq<byte>)
    ensures var t := Be32(DictId(dictionary));
            && 256 * Value(t[0]) + Value(t[1]) == (|dictionary| + Weighted(dictionary)) % 65521
            && 256 * Value(t[2]) + Value(t[3]) == (1 + Sum(dictionary)) % 65521
  {
    hide Value, Be32, Le32, Low32, Checksum, Sum, Weighted;
    var n := Checksum(1, dictionary);
    IdHalves(dictionary);
    CounterBytes(n);
    BackToFront(Low32(n));
    TwoDigits(n, n / 0x1_0000, n % 0x1_0000);
  }

  lemma IdHalves(dictionary: seq<byte>)
    ensures var n := Checksum(1, dictionary);
            && n / 0x1_0000 == (|dictionary| + Weighted(dictionary)) % 65521
            && n % 0x1_0000 == (1 + Sum(dictionary)) % 65521
  {
    if dictionary == [] {
      NothingAdded(1);
    } else {
      hide Checksum, Sum, Weighted;
      ChecksumClosedForm(1, dictionary);
    }
  }

  lemma TwoDigits(n: nat, s2: nat, s1: nat)
    requires n / 0x1_0000 == s2 < 0x1_0000 && n % 0x1_0000 == s1
    ensures 256 * (n / 256 / 256 / 256 % 256) + n / 256 / 256 % 256 == s2
    ensures 256 * (n / 256 % 256) + n % 256 == s1
  {
  }

  lemma IdOf(dictionary: seq<byte>, a32: nat)
    requires a32 == Checksum(1, dictionary)
    ensures Low32(a32) == DictId(dictionary)
  {
  }
}
