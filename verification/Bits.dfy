/** Bytes and bit strings. Within a byte the least significant bit comes first (RFC 1951, section 3.1.1). */
module Bits {

  type byte = bv8

  function Bit(b: byte, i: nat): bool
    requires i < 8
  {
    if i == 0 then b & 0x01 != 0 else
    if i == 1 then b & 0x02 != 0 else
    if i == 2 then b & 0x04 != 0 else
    if i == 3 then b & 0x08 != 0 else
    if i == 4 then b & 0x10 != 0 else
    if i == 5 then b & 0x20 != 0 else
    if i == 6 then b & 0x40 != 0 else
    b & 0x80 != 0
  }

  /** The bit string carried by a byte string. */
  function Of(s: seq<byte>): (r: seq<bool>)
    ensures |r| == 8 * |s|
  {
    seq(8 * |s|, k requires 0 <= k < 8 * |s| => Bit(s[k / 8], k % 8))
  }

  function Zeros(n: nat): (r: seq<bool>)
    ensures |r| == n
  {
    seq(n, _ => false)
  }

  function Ones(n: nat): (r: seq<bool>)
    ensures |r| == n
  {
    seq(n, _ => true)
  }

  /** Whole bytes in an n-bit string. */
  function Whole(n: nat): (w: nat)
    ensures 8 * w <= n < 8 * w + 8
  {
    n / 8
  }

  /** Bits of the incomplete last byte of an n-bit string. */
  function Part(n: nat): (r: nat)
    ensures n == 8 * Whole(n) + r && r < 8
  {
    n % 8
  }

  predicate Aligned(n: nat) {
    n == 8 * Whole(n)
  }

  /** Bits missing to complete the last byte of an n-bit string. */
  function PadLen(n: nat): (p: nat)
    ensures p < 8 && Aligned(n + p)
  {
    8 * Whole(n + 7) - n
  }

  function Min(a: int, b: int): int {
    if a < b then a else b
  }

  /** The pieces of a byte string put together. */
  function Flatten(pieces: seq<seq<byte>>): seq<byte> {
    if pieces == [] then [] else pieces[0] + Flatten(pieces[1..])
  }

  lemma Regroup<T>(a: seq<T>, b: seq<T>, c: seq<T>)
    ensures a + (b + c) == (a + b) + c
  {
  }

  lemma Extends<T>(a: seq<T>, b: seq<T>, c: seq<T>)
    requires a <= b <= c
    ensures a <= c
  {
  }

  lemma OfConcat(a: seq<byte>, b: seq<byte>)
    ensures Of(a + b) == Of(a) + Of(b)
  {
    forall k | 0 <= k < 8 * |a + b|
      ensures Of(a + b)[k] == (Of(a) + Of(b))[k]
    {
      if 8 * |a| <= k {
        assert (k - 8 * |a|) / 8 == k / 8 - |a| && (k - 8 * |a|) % 8 == k % 8;
      }
    }
  }

  lemma OfDrop(s: seq<byte>, n: nat)
    requires n <= |s|
    ensures Of(s[n..]) == Of(s)[8 * n..]
  {
    OfConcat(s[..n], s[n..]);
    assert s[..n] + s[n..] == s;
  }

  lemma OfTake(s: seq<byte>, n: nat)
    requires n <= |s|
    ensures Of(s[..n]) == Of(s)[..8 * n]
  {
    OfConcat(s[..n], s[n..]);
    assert s[..n] + s[n..] == s;
  }
}
