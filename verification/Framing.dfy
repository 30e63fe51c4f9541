/** The bytes wrapped around a DEFLATE stream: gzip (RFC 1952, section 2.3) and zlib (RFC 1950, section 2.2). */
module Framing {
  import opened Bits
  import opened Words
  import OutputFifo

  datatype Format = Defl | Zlib | Gzip

  const FTEXT: byte := 0x01
  const FHCRC: byte := 0x02
  const FEXTRA: byte := 0x04
  const FNAME: byte := 0x08
  const FCOMMENT: byte := 0x10

  /** What deflateSetHeader supplies. Names carry no NUL: their lengths come from strlen. */
  datatype GzHead = GzHead(extra: Option<seq<byte>>, name: Option<seq<byte>>, comment: Option<seq<byte>>,
                           time: bv32, os: byte, xflags: bv32)
  {
    ghost predicate Valid() {
      && 0 !in Text(name)
      && 0 !in Text(comment)
      && (extra.Some? ==> |extra.value| < 0x1_0000_0000)
    }
  }

  /** The characters behind a string pointer that may be NULL. */
  function Text(s: Option<seq<byte>>): seq<byte> {
    if s.Some? then s.value else []
  }

  /** The length test made before any variable part is queued, in 32-bit arithmetic. */
  predicate HeadAccepted(h: Option<GzHead>) {
    h.None? || (|Text(h.value.name)| + |Text(h.value.comment)| + |Text(h.value.extra)|) % 0x1_0000_0000 <= 240
  }

  function Flg(h: Option<GzHead>): byte {
    match h
    case None => 0
    case Some(g) =>
      (if Text(g.name) != [] then FNAME else 0)
      | (if Text(g.comment) != [] then FCOMMENT else 0)
      | (if g.extra.Some? then FEXTRA else 0)
      | (if g.xflags & 0x01 != 0 then FTEXT else 0)
      | (if g.xflags & 0x02 != 0 then FHCRC else 0)
  }

  function GzipFixed(h: Option<GzHead>, now: bv32): (s: seq<byte>)
    ensures |s| == 10
  {
    [0x1f, 0x8b, 0x08] + [Flg(h)] + Le32(if h.Some? then h.value.time else now)
    + [0x04, if h.Some? then h.value.os else 0xff]
  }

  function LowByte(n: nat): byte {
    Octet(n)
  }

  function HighByte(n: nat): byte {
    Octet(n / 256)
  }

  function LengthPrefixed(e: Option<seq<byte>>): seq<byte> {
    if e.Some? then [LowByte(|e.value|), HighByte(|e.value|)] + e.value else []
  }

  function ExtraField(h: Option<GzHead>): seq<byte> {
    if h.Some? then LengthPrefixed(h.value.extra) else []
  }

  function CString(s: seq<byte>): seq<byte> {
    if s == [] then [] else s + [0]
  }

  function NameField(h: Option<GzHead>): seq<byte> {
    if h.Some? then CString(Text(h.value.name)) else []
  }

  function CommentField(h: Option<GzHead>): seq<byte> {
    if h.Some? then CString(Text(h.value.comment)) else []
  }

  /** The two bytes written where a header CRC is asked for. */
  function HcrcField(h: Option<GzHead>): seq<byte> {
    if h.Some? && h.value.xflags & 0x02 != 0 then [0xde, 0xef] else []
  }

  function GzipHeader(h: Option<GzHead>, now: bv32): seq<byte> {
    GzipFixed(h, now) + ExtraField(h) + NameField(h) + CommentField(h) + HcrcField(h)
  }

  function ZlibHeader(dict: Option<bv32>): seq<byte> {
    match dict
    case None => [0x78, 0x9c]
    case Some(adler) => [0x78, 0xbb] + Be32(adler)
  }

  /** What gets into the FIFO when the bytes of s are pushed one by one: pushes into the full FIFO are lost. */
  function Queued(s: seq<byte>): (q: seq<byte>)
    ensures |q| <= OutputFifo.CAPACITY && q <= s
    ensures |s| <= OutputFifo.CAPACITY ==> q == s
  {
    s[..Min(OutputFifo.CAPACITY, |s|)]
  }

  lemma QueuedOn(a: seq<byte>, b: seq<byte>)
    ensures Queued(Queued(a) + b) == Queued(a + b)
  {
  }

  /** The header as it reaches the caller. */
  function Header(format: Format, h: Option<GzHead>, dict: Option<bv32>, now: bv32): (s: seq<byte>)
    ensures |s| <= OutputFifo.CAPACITY
  {
    match format
    case Defl => []
    case Zlib => ZlibHeader(dict)
    case Gzip => Queued(GzipHeader(h, now))
  }

  function Trailer(format: Format, crc: bv32, adler: bv32, total: nat): (s: seq<byte>)
    ensures |s| == match format case Defl => 0 case Zlib => 4 case Gzip => 8
  {
    match format
    case Defl => []
    case Zlib => Be32(adler)
    case Gzip => Le32(crc) + Le32(Low32(total))
  }

  /** Every optional field present, with exactly 240 bytes of text and extra data. */
  predicate LongestHead(h: GzHead) {
    && h.extra.Some? && Text(h.name) != [] && Text(h.comment) != [] && h.xflags & 0x02 != 0
    && |Text(h.name)| + |Text(h.comment)| + |h.extra.value| == 240
  }

  /** Characters and extra bytes of a header. */
  function TextBytes(h: GzHead): nat {
    |Text(h.name)| + |Text(h.comment)| + |Text(h.extra)|
  }

  /** A header that passes the length test reaches the caller whole, unless it has the longest shape or its lengths add
      up to 4 GiB and more, where the sum has wrapped. In the longest shape one byte is lost. */
  lemma AcceptedHeaderFits(h: Option<GzHead>, now: bv32)
    requires HeadAccepted(h)
    ensures Header(Gzip, h, None, now) == GzipHeader(h, now) <==>
            !(h.Some? && (LongestHead(h.value) || TextBytes(h.value) >= 0x1_0000_0000))
    ensures h.Some? && LongestHead(h.value) ==> |GzipHeader(h, now)| == 256
  {
    if h.Some? && |GzipHeader(h, now)| <= 255 {
      assert TextBytes(h.value) <= |GzipHeader(h, now)|;
    }
  }

  /** There is a header of the longest shape that passes the length test. */
  lemma LongestHeadAccepted(now: bv32) returns (h: GzHead)
    ensures h.Valid() && HeadAccepted(Some(h)) && LongestHead(h)
    ensures Header(Gzip, Some(h), None, now) == GzipHeader(Some(h), now)[..255]
  {
    h := GzHead(Some(seq(238, _ => 0)), Some([0x61]), Some([0x61]), 0, 0, 0x02);
    AcceptedHeaderFits(Some(h), now);
  }

  // ---- the bytes as other readers expect them ----

  /** Each bit of the flags announces its field (RFC 1952, section 2.3.1). */
  lemma HeaderFlags(h: Option<GzHead>, now: bv32)
    ensures var f := GzipHeader(h, now)[3];
            && (f & 0x01 != 0 <==> h.Some? && h.value.xflags & 0x01 != 0)
            && (f & 0x02 != 0 <==> h.Some? && h.value.xflags & 0x02 != 0)
            && (f & 0x04 != 0 <==> h.Some? && h.value.extra.Some?)
            && (f & 0x08 != 0 <==> h.Some? && Text(h.value.name) != [])
            && (f & 0x10 != 0 <==> h.Some? && Text(h.value.comment) != [])
            && f & 0xe0 == 0
  {
    FlagsByte(h, now);
    hide GzipHeader;
  }

  lemma FlagsByte(h: Option<GzHead>, now: bv32)
    ensures GzipHeader(h, now)[3] == Flg(h)
  {
    hide Flg, Le32, ExtraField, NameField, CommentField, HcrcField;
  }

  /** The fixed part, then extra data behind its length, name and comment with their terminators, and two bytes. */
  lemma HeaderBytes(h: Option<GzHead>, now: bv32)
    ensures var s, time := GzipHeader(h, now), if h.Some? then h.value.time else now;
            && |s| >= 10 && s[..3] == [0x1f, 0x8b, 0x08] && s[4..8] == Le32(time) && s[8] == 0x04
            && s[9] == (if h.Some? then h.value.os else 0xff)
            && (h.None? ==> |s| == 10)
            && (h.Some? ==>
                 var g := h.value;
                 s[10..] == (if g.extra.Some? then
                               [Octet(|g.extra.value|), Octet(|g.extra.value| / 256)] + g.extra.value
                             else [])
                            + (if Text(g.name) != [] then Text(g.name) + [0x00] else [])
                            + (if Text(g.comment) != [] then Text(g.comment) + [0x00] else [])
                            + (if g.xflags & 0x02 != 0 then [0xde, 0xef] else []))
  {
    hide Flg, Le32, Octet;
    var fixed, e, n, c, x := GzipFixed(h, now), ExtraField(h), NameField(h), CommentField(h), HcrcField(h);
    assert GzipHeader(h, now) == fixed + (e + n + c + x);
    hide GzipHeader;
  }

  lemma ZlibBytes(dict: Option<bv32>)
    ensures var s := ZlibHeader(dict);
            if dict.None? then s == [0x78, 0x9c]
            else |s| == 6 && s[..2] == [0x78, 0xbb]
                 && forall i: nat | i < 32 :: Bit(s[5 - i / 8], i % 8) == Bit32(dict.value, i)
  {
    if dict.Some? {
      forall i: nat | i < 32
        ensures Bit(ZlibHeader(dict)[5 - i / 8], i % 8) == Bit32(dict.value, i)
      {
        WordBits(dict.value, i);
        assert ZlibHeader(dict)[5 - i / 8] == Be32(dict.value)[3 - i / 8];
      }
    }
    hide Be32, Bit, Bit32;
  }

  /** A gzip trailer is the checksum and the length, low bytes first, a zlib trailer the checksum, high byte first. */
  lemma TrailerBytes(format: Format, crc: bv32, adler: bv32, total: nat)
    ensures var s := Trailer(format, crc, adler, total);
            && (format == Gzip ==> forall i: nat | i < 32 :: Bit(s[i / 8], i % 8) == Bit32(crc, i))
            && (format == Zlib ==> forall i: nat | i < 32 :: Bit(s[3 - i / 8], i % 8) == Bit32(adler, i))
            && (format == Gzip ==>
                 && Value(s[4]) == total % 256 && Value(s[5]) == total / 256 % 256
                 && Value(s[6]) == total / 256 / 256 % 256 && Value(s[7]) == total / 256 / 256 / 256 % 256)
  {
    hide Le32, Be32, Bit, Bit32, Low32, Value;
    CounterBytes(total);
    forall i: nat | i < 32
      ensures format == Gzip ==> Bit(Trailer(format, crc, adler, total)[i / 8], i % 8) == Bit32(crc, i)
      ensures format == Zlib ==> Bit(Trailer(format, crc, adler, total)[3 - i / 8], i % 8) == Bit32(adler, i)
    {
      WordBits(crc, i);
      WordBits(adler, i);
      assert format == Gzip ==> Trailer(format, crc, adler, total)[i / 8] == Le32(crc)[i / 8];
    }
  }
}
