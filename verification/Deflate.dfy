/** The deflate side of the stream: FIFO, partial byte and direct writes (lib/deflate.c). */
module Deflate {
  import opened Bits
  import opened Words
  import opened Framing
  import opened OutputFifo
  import opened DeflateSpec

  const HDR_BTYPE_FIXED: byte := 0x02

  /** The n low bits of a byte. */
  function Low(b: byte, n: nat): (r: seq<bool>)
    requires n <= 8
    ensures |r| == n
  {
    seq(n, i requires 0 <= i < n => Bit(b, i))
  }

  /** Masks for the valid bits of a partial byte; entry 0 stands for a full byte. */
  const BMSK: seq<byte> := [0xff, 0x01, 0x03, 0x07, 0x0f, 0x1f, 0x3f, 0x7f]

  function ByteBits(b: byte): (r: seq<bool>)
    ensures |r| == 8
  {
    [Bit(b, 0), Bit(b, 1), Bit(b, 2), Bit(b, 3), Bit(b, 4), Bit(b, 5), Bit(b, 6), Bit(b, 7)]
  }

  lemma OfFirst(s: seq<byte>)
    requires s != []
    ensures Of(s) == ByteBits(s[0]) + Of(s[1..])
  {
    OfConcat(s[..1], s[1..]);
    assert s[..1] + s[1..] == s && Of(s[..1]) == ByteBits(s[0]);
  }

  lemma MaskKeepsLow(b: byte, n: nat)
    requires 0 < n < 8
    ensures ByteBits(b & BMSK[n]) == Low(b, n) + Zeros(8 - n)
  {
  }

  /** 0x03 << (n - 1): the BFINAL bit and the low bit of BTYPE of a final fixed block. */
  function FinalBits(n: nat): byte
    requires 0 < n < 8
  {
    (0x03 as byte) << (n - 1)
  }

  lemma FinalBitsExact(n: nat)
    requires 0 < n < 8
    ensures ByteBits(FinalBits(n)) == Zeros(n - 1) + [true, true] + Zeros(7 - n)
  {
    if n == 1 {} else if n == 2 {} else if n == 3 {} else if n == 4 {} else if n == 5 {} else if n == 6 {}
  }

  /** The three bytes that close the stream behind n pending bits. */
  function EobBytes(obyte: byte, n: nat): (s: seq<byte>)
    requires n < 8
    ensures |s| == 3
  {
    if n == 0 then [0x80, 0x01, 0x00] else [obyte & BMSK[n], FinalBits(n), 0x00]
  }

  lemma ZeroByte()
    ensures ByteBits(0) == Zeros(8)
  {
  }

  lemma ThreeBytes(x: byte, y: byte, z: byte)
    ensures Of([x, y, z]) == ByteBits(x) + ByteBits(y) + ByteBits(z)
  {
    OfFirst([x, y, z]);
    OfFirst([y, z]);
    OfFirst([z]);
  }

  lemma AlignedEob()
    ensures Of([0x80, 0x01, 0x00]) == Zeros(7) + [true, true, false] + Zeros(14)
  {
    ThreeBytes(0x80, 0x01, 0x00);
    ZeroByte();
    assert ByteBits(0x80) == Zeros(7) + [true];
    assert ByteBits(0x01) == [true] + Zeros(7);
  }

  lemma JoinEob(low: seq<bool>, n: nat)
    requires 0 < n < 8 && |low| == n
    ensures (low + Zeros(8 - n)) + (Zeros(n - 1) + [true, true] + Zeros(7 - n)) + Zeros(8)
         == low + Zeros(7) + [true, true, false] + Zeros(14 - n)
  {
  }

  lemma ShiftedEob(obyte: byte, n: nat)
    requires 0 < n < 8
    ensures Of(EobBytes(obyte, n)) == Low(obyte, n) + Zeros(7) + [true, true, false] + Zeros(14 - n)
  {
    ThreeBytes(obyte & BMSK[n], FinalBits(n), 0x00);
    MaskKeepsLow(obyte, n);
    FinalBitsExact(n);
    ZeroByte();
    JoinEob(Low(obyte, n), n);
  }

  /** They are the pending bits, an end of block, an empty final fixed block and zero padding. */
  lemma EobBytesExact(obyte: byte, n: nat)
    requires n < 8
    ensures Of(EobBytes(obyte, n)) == Low(obyte, n) + SegBits(Close, n)
  {
    if n == 0 {
      AlignedEob();
    } else {
      ShiftedEob(obyte, n);
    }
    hide Of, Low, FinalBits;
    assert PadLen(n + 17) == 7 - n;
  }

  /** The end of block, block header and padding bytes of a flush marker behind n pending bits. */
  function MarkerBytes(obyte: byte, n: nat): (s: seq<byte>)
    requires n < 8
    ensures |s| <= 3
  {
    if n == 0 then [0, 0] else [obyte & BMSK[n], 0] + (if n > 6 then [0] else [])
  }

  lemma MarkerBytesExact(obyte: byte, n: nat)
    requires n < 8
    ensures Of(MarkerBytes(obyte, n)) == Low(obyte, n) + Zeros(7) + [false, false, false] + Zeros(PadLen(n + 10))
  {
    ZeroByte();
    if n > 0 {
      MaskKeepsLow(obyte, n);
    }
    var s := MarkerBytes(obyte, n);
    OfFirst(s);
    OfFirst(s[1..]);
    if n > 6 {
      OfFirst(s[2..]);
    }
    hide ByteBits, Low;
    assert PadLen(n + 10) == if n > 6 then 7 else 6 - n;
  }

  /** LEN 0 and its complement. */
  const STORED_LEN: seq<byte> := [0, 0, 0xff, 0xff]

  lemma StoredLenExact()
    ensures Of(STORED_LEN) == Zeros(16) + Ones(16)
  {
  }

  /** The whole bytes of a flush marker. */
  function SyncBytes(obyte: byte, n: nat): (s: seq<byte>)
    requires n < 8
    ensures |s| <= 7
  {
    MarkerBytes(obyte, n) + STORED_LEN
  }

  /** They are the pending bits, an end of block and an empty stored block; then a fixed block is reopened. */
  lemma SyncBytesExact(obyte: byte, n: nat)
    requires n < 8
    ensures Of(SyncBytes(obyte, n)) + OPEN_BITS == Low(obyte, n) + SegBits(Sync, n)
  {
    MarkerBytesExact(obyte, n);
    StoredLenExact();
    OfConcat(MarkerBytes(obyte, n), STORED_LEN);
    hide Of, Low, PadLen;
  }

  lemma PadIgnoresWholeBytes(k: nat, n: nat)
    ensures PadLen(8 * k + n) == PadLen(n)
  {
  }

  /** Behind a byte boundary whole bytes are simply appended. */
  lemma BytesGrow(all: seq<byte>, obyte: byte, more: seq<byte>)
    ensures Of(all + more) + Low(obyte, 0) == (Of(all) + Low(obyte, 0)) + Of(more)
  {
    OfConcat(all, more);
    assert Low(obyte, 0) == [];
  }

  lemma EobGrows(all: seq<byte>, obyte: byte, n: nat, at: nat)
    requires n < 8 && at == 8 * |all| + n
    ensures Of(all + EobBytes(obyte, n)) + Low(obyte, 0) == (Of(all) + Low(obyte, n)) + SegBits(Close, at)
  {
    assert Low(obyte, 0) == [];
    OfConcat(all, EobBytes(obyte, n));
    EobBytesExact(obyte, n);
    PadIgnoresWholeBytes(|all|, n + 17);
    hide PadLen, Of, Low, EobBytes;
    assert SegBits(Close, at) == SegBits(Close, n);
    Regroup(Of(all), Low(obyte, n), SegBits(Close, n));
  }

  lemma SyncGrows(all: seq<byte>, obyte: byte, n: nat, at: nat)
    requires n < 8 && at == 8 * |all| + n
    ensures Of(all + SyncBytes(obyte, n)) + OPEN_BITS
         == (Of(all) + Low(obyte, n)) + SegBits(Sync, at)
  {
    hide PadLen, Of, Low, SyncBytes;
    var s := SyncBytes(obyte, n);
    OfConcat(all, s);
    SyncBytesExact(obyte, n);
    PadIgnoresWholeBytes(|all|, n + 10);
    assert SegBits(Sync, at) == SegBits(Sync, n);
    Regroup(Of(all), Of(s), OPEN_BITS);
    Regroup(Of(all), Low(obyte, n), SegBits(Sync, n));
  }

  lemma OpenByte()
    ensures Low(HDR_BTYPE_FIXED, 3) == OPEN_BITS
  {
  }

  lemma AnswerGrows(sent: seq<byte>, out: seq<byte>, queued: seq<byte>, low: seq<bool>, left: seq<bool>)
    requires Of(queued) + low == left
    ensures Of(sent + out + queued) + low == Of(sent) + (Of(out) + left)
  {
    OfConcat(sent + out, queued);
    OfConcat(sent, out);
    hide Of;
  }

  lemma LowOfNext(stored: seq<byte>, j: nat, r: nat)
    requires r < 8 && (if r == 0 then j <= |stored| else j < |stored|)
    ensures Of(stored)[..8 * j + r] == Of(stored[..j]) + (if r == 0 then [] else Low(stored[j], r))
  {
    OfTake(stored, j);
    if r != 0 {
      var part := Of(stored)[8 * j..8 * j + r];
      forall i | 0 <= i < r
        ensures part[i] == Bit(stored[j], i)
      {
        assert (8 * j + i) / 8 == j && (8 * j + i) % 8 == i;
      }
      assert part == Low(stored[j], r);
    }
  }

  class DeflateStream {
    const format: Format
    const dyn: bool                // the card supports dynamic Huffman codes
    const head: Option<GzHead>
    const dict: Option<bv32>       // havedict and dict_adler32
    const outFifo: Fifo
    var obyte: byte
    var onumbits: nat
    var headerAdded: bool
    var eobAdded: bool
    var trailerAdded: bool
    var crc32: bv32
    var adler32: bv32
    var totalIn: nat
    var availIn: nat
    var availOut: nat
    var delivered: seq<byte>       // every byte stored through next_out; total_out is its length
    ghost var segs: seq<Seg>

    /** Everything generated: delivered bytes, FIFO, pending bits. */
    ghost function Generated(): seq<bool>
      requires outFifo.Valid() && onumbits < 8
      reads this`delivered, this`obyte, this`onumbits, outFifo, outFifo.fifo
    {
      Of(delivered + outFifo.Contents()) + Low(obyte, onumbits)
    }

    ghost function Model(): Stream
      reads this`headerAdded, this`eobAdded, this`trailerAdded, this`segs, this`delivered, this`crc32, this`adler32,
            this`totalIn
    {
      Stream(format, dyn, head, dict, headerAdded, eobAdded, trailerAdded, segs, |delivered|, crc32, adler32, totalIn)
    }

    /** The pieces render to exactly what was generated: nothing was dropped or reordered. */
    ghost predicate Sound()
      reads this`segs, this`delivered, this`obyte, this`onumbits, outFifo, outFifo.fifo
    {
      && outFifo.Valid()
      && onumbits < 8
      && Render(segs) == Generated()
    }

    ghost predicate Valid()
      reads this, outFifo, outFifo.fifo
    {
      Sound() && Good(Model())
    }

    constructor (format: Format, dyn: bool, head: Option<GzHead>, dict: Option<bv32>)
      ensures Valid() && fresh(this) && fresh(outFifo) && fresh(outFifo.fifo)
      ensures Model() == Initial(format, dyn, head, dict)
    {
      this.format, this.dyn, this.head, this.dict := format, dyn, head, dict;
      outFifo := new Fifo();
      obyte, onumbits := HDR_BTYPE_FIXED, 3;
      headerAdded, eobAdded, trailerAdded := false, false, false;
      crc32, adler32, totalIn := 0, 1, 0;
      availIn, availOut, delivered := 0, 0, [];
      segs := [Open];
      new;
      RenderAppend([], Open);
      assert [] + [Open] == [Open];
      OpenByte();
    }

    lemma QueueIsReady()
      requires Sound()
      ensures Whole(|Model().Bits()|) == |delivered| + |outFifo.Contents()|
      ensures Model().Tail() == Low(obyte, onumbits)
      ensures Model().Ready() == |outFifo.Contents()|
    {
    }

    method WriteOutFifo()
      requires Sound()
      modifies this`availOut, this`delivered, outFifo
      ensures Sound()
      ensures old(Model()).Ready() >= 0 && Model() == old(Model()).Drain(old(availOut))
      ensures availOut == old(availOut) - (|delivered| - old(|delivered|))
      ensures availOut == 0 || outFifo.Contents() == []
    {
      QueueIsReady();
      hide Render, Of, Low, Whole, Queue, OutputFifo.Fifo.Contents;
      PopLoop();
    }

    method PopLoop()
      requires outFifo.Valid()
      modifies this`availOut, this`delivered, outFifo
      ensures outFifo.Valid() && delivered + outFifo.Contents() == old(delivered + outFifo.Contents())
      ensures |old(delivered)| <= |delivered| && availOut == old(availOut) - (|delivered| - |old(delivered)|)
      ensures availOut == 0 || outFifo.Contents() == []
    {
      hide Queue;
      ghost var all, out := delivered + outFifo.Contents(), |delivered|;
      while availOut > 0
        invariant outFifo.Valid()
        invariant delivered + outFifo.Contents() == all
        invariant out <= |delivered| && availOut == old(availOut) - (|delivered| - out)
      {
        var ok, data := outFifo.Pop();
        if !ok {
          break;
        }
        delivered := delivered + [data];
        availOut := availOut - 1;
      }
    }
  
    method PushBytes(s: seq<byte>)
      requires outFifo.Valid()
      modifies outFifo, outFifo.fifo
      ensures outFifo.Valid() && outFifo.Contents() == Queued(old(outFifo.Contents()) + s)
    {
      hide Queue;
      for i := 0 to |s|
        invariant outFifo.Valid() && outFifo.Contents() == Queued(old(outFifo.Contents()) + s[..i])
      {
        var pushed := outFifo.Push(s[i]);
        assert s[..i + 1] == s[..i] + [s[i]];
      }
    }

    /** Queues the gzip header, or only its magic bytes when its texts are too long. */
    method QueueGzipHeader(now: bv32) returns (ok: bool)
      requires outFifo.Valid() && outFifo.Contents() == []
      modifies outFifo, outFifo.fifo
      ensures outFifo.Valid()
      ensures ok <==> HeadAccepted(head)
      ensures outFifo.Contents() == if ok then Queued(GzipHeader(head, now)) else [0x1f, 0x8b, 0x08]
    {
      PushBytes([0x1f, 0x8b, 0x08]);
      if !HeadAccepted(head) {
        return false;
      }
      hide Flg, Le32, ExtraField, NameField, CommentField, HcrcField, Queue;
      assert outFifo.Contents() == [0x1f, 0x8b, 0x08];
      PushBytes([Flg(head)]);
      var mt := outFifo.Push32(Le32(if head.Some? then head.value.time else now));
      PushBytes([0x04, if head.Some? then head.value.os else 0xff]);
      hide Queued;
      ghost var fixed, extra, name, comment :=
        GzipFixed(head, now), ExtraField(head), NameField(head), CommentField(head);
      assert outFifo.Contents() == fixed;
      PushBytes(ExtraField(head));
      PushBytes(NameField(head));
      QueuedOn(fixed + extra, name);
      PushBytes(CommentField(head));
      QueuedOn(fixed + extra + name, comment);
      PushBytes(HcrcField(head));
      QueuedOn(fixed + extra + name + comment, HcrcField(head));
      return true;
    }

    method QueueZlibHeader()
      requires outFifo.Valid() && outFifo.Contents() == []
      modifies outFifo, outFifo.fifo
      ensures outFifo.Valid() && outFifo.Contents() == ZlibHeader(dict)
    {
      hide Be32, Queue;
      if dict.Some? {
        PushBytes([0x78, 0xbb]);
        var id := outFifo.Push32(Be32(dict.value));
      } else {
        PushBytes([0x78, 0x9c]);
      }
    }

    /** The header goes in front of the first block; a refused header leaves its magic bytes behind. */
    method AddHeader(now: bv32) returns (rc: int)
      requires Valid()
      modifies this`headerAdded, this`segs, outFifo, outFifo.fifo
      ensures rc == 0 || rc == 1
      ensures rc == 1 <==> old(Model()).HeaderRefused()
      ensures rc == 0 ==> Sound() && Model() == old(Model()).WithHeader(now)
    {
      if headerAdded || format == Defl {
        return 0;
      }
      StartsEmpty();
      HeaderInFront(Model(), now);
      OfConcat(Header(format, head, dict, now), []);
      hide Render, Of, Low, Whole, GzipHeader, ZlibHeader, HeadAccepted, Queue;
      if format == Gzip {
        var ok := QueueGzipHeader(now);
        if !ok {
          return 1;
        }
      } else {
        QueueZlibHeader();
      }
      assert delivered + outFifo.Contents() == Header(format, head, dict, now);
      headerAdded := true;
      segs := [Head(format, head, dict, now)] + segs;
      return 0;
    }

    /** Before the header only the bits of the first block header are pending. */
    lemma StartsEmpty()
      requires Valid() && Model().NeedsHeader()
      ensures outFifo.Contents() == [] && delivered == [] && Low(obyte, onumbits) == Generated()
    {
      RenderAppend([], Open);
      assert [] + [Open] == [Open];
    }

    method QueueEob()
      requires outFifo.Valid() && onumbits < 8 && |outFifo.Contents()| + 3 <= CAPACITY
      modifies outFifo, outFifo.fifo
      ensures outFifo.Valid() && outFifo.Contents() == old(outFifo.Contents()) + EobBytes(obyte, onumbits)
    {
      if onumbits == 0 {
        PushBytes([0x80, 0x01, 0x00]);
      } else {
        PushBytes([obyte & BMSK[onumbits], FinalBits(onumbits), 0x00]);
      }
    }

    /** End of block, unless it was added before. */
    method WriteEob() returns (added: int)
      requires Sound() && |outFifo.Contents()| + 3 <= CAPACITY
      modifies this`onumbits, this`eobAdded, this`segs, outFifo, outFifo.fifo
      ensures Sound()
      ensures Model() == if old(eobAdded) then old(Model()) else old(Model()).Add(Close).(eobAdded := true)
      ensures |outFifo.Contents()| <= old(|outFifo.Contents()|) + 3
      ensures !old(eobAdded) ==> onumbits == 0
      ensures old(eobAdded) ==> onumbits == old(onumbits)
    {
      if eobAdded {
        return 0;
      }
      if onumbits >= 8 {
        return 0;
      }
      hide Render, Of, SegBits, Whole, EobBytes, Low, Queue;
      EobRenders();
      QueueEob();
      onumbits := 0;
      eobAdded := true;
      segs := segs + [Close];
      return 1;
    }

    lemma EobRenders()
      requires Sound()
      ensures Render(segs + [Close])
           == Of(delivered + (outFifo.Contents() + EobBytes(obyte, onumbits))) + Low(obyte, 0)
    {
      var all := delivered + outFifo.Contents();
      EobGrows(all, obyte, onumbits, |Render(segs)|);
      RenderAppend(segs, Close);
      Regroup(delivered, outFifo.Contents(), EobBytes(obyte, onumbits));
    }

    method QueueTrailer()
      requires outFifo.Valid() && |outFifo.Contents()| + 8 <= CAPACITY
      modifies outFifo, outFifo.fifo
      ensures outFifo.Valid()
      ensures outFifo.Contents() == old(outFifo.Contents())
                                 + Trailer(format, crc32, adler32, totalIn)
    {
      hide Be32, Le32, Low32, Queue;
      match format {
        case Defl =>
        case Gzip =>
          Regroup(outFifo.Contents(), Le32(crc32), Le32(Low32(totalIn)));
          var crc := outFifo.Push32(Le32(crc32));
          var size := outFifo.Push32(Le32(Low32(totalIn)));
        case Zlib =>
          var adler := outFifo.Push32(Be32(adler32));
      }
    }

    /** Trailer, once, and only behind the end of block. */
    method AddTrailer() returns (added: int)
      requires Sound() && |outFifo.Contents()| + 8 <= CAPACITY && (eobAdded && !trailerAdded ==> onumbits == 0)
      modifies this`trailerAdded, this`segs, outFifo, outFifo.fifo
      ensures Sound()
      ensures Model() == if !eobAdded || old(trailerAdded) then old(Model())
                         else old(Model()).Add(Trail(format, crc32, adler32, totalIn)).(trailerAdded := true)
      ensures |outFifo.Contents()| <= old(|outFifo.Contents()|) + 8
    {
      if !eobAdded {
        return 0;
      }
      if trailerAdded {
        return 0;
      }
      hide Render, Of, SegBits, Whole, Trailer, Low, Queue;
      TrailerRenders();
      QueueTrailer();
      trailerAdded := true;
      segs := segs + [Trail(format, crc32, adler32, totalIn)];
      return 1;
    }

    lemma TrailerRenders()
      requires Sound() && onumbits == 0
      ensures Render(segs + [Trail(format, crc32, adler32, totalIn)])
           == Of(delivered + (outFifo.Contents() + Trailer(format, crc32, adler32, totalIn))) + Low(obyte, 0)
    {
      hide Trailer;
      var all, trailer := delivered + outFifo.Contents(), Trailer(format, crc32, adler32, totalIn);
      RenderAppend(segs, Trail(format, crc32, adler32, totalIn));
      BytesGrow(all, obyte, trailer);
      Regroup(delivered, outFifo.Contents(), trailer);
    }

    method QueueMarker()
      requires outFifo.Valid() && onumbits < 8 && |outFifo.Contents()| + 7 <= CAPACITY
      modifies this`onumbits, outFifo, outFifo.fifo
      ensures outFifo.Valid()
      ensures outFifo.Contents() == old(outFifo.Contents()) + SyncBytes(obyte, old(onumbits))
      ensures onumbits == 0
    {
      ghost var queue, marker := outFifo.Contents(), MarkerBytes(obyte, onumbits);
      if onumbits == 0 {
        PushBytes([0, 0]);
      } else {
        PushBytes([obyte & BMSK[onumbits], 0]);
        if onumbits > 6 {
          PushBytes([0]);
          Regroup(queue, [obyte & BMSK[onumbits], 0], [0]);
        }
        onumbits := 0;
      }
      PushBytes(STORED_LEN);
      Regroup(queue, marker, STORED_LEN);
    }

    method WriteSync()
      requires Sound() && |outFifo.Contents()| + 7 <= CAPACITY
      modifies this`onumbits, this`obyte, this`segs, outFifo, outFifo.fifo
      ensures Sound() && Model() == old(Model()).Add(Sync)
    {
      hide Render, Of, SegBits, Whole, SyncBytes, Low, Queue;
      SyncRenders();
      QueueMarker();
      obyte := HDR_BTYPE_FIXED;
      onumbits := 3;
      segs := segs + [Sync];
    }

    lemma SyncRenders()
      requires Sound()
      ensures Render(segs + [Sync])
           == Of(delivered + (outFifo.Contents() + SyncBytes(obyte, onumbits))) + Low(HDR_BTYPE_FIXED, 3)
    {
      var all := delivered + outFifo.Contents();
      SyncGrows(all, obyte, onumbits, |Render(segs)|);
      RenderAppend(segs, Sync);
      OpenByte();
      Regroup(delivered, outFifo.Contents(), SyncBytes(obyte, onumbits));
    }

    /** Left-over bytes of the two arrays of the newer hardware. */
    method StoreTwoArrays(a: Answer)
      requires dyn && a.Valid() && a.onumbits <= 8 * 31
      requires outFifo.Valid() && outFifo.Contents() == []
      modifies this`obyte, this`onumbits, outFifo, outFifo.fifo
      ensures outFifo.Valid() && onumbits < 8 && |outFifo.Contents()| <= 31
      ensures Of(outFifo.Contents()) + Low(obyte, onumbits) == Of(a.Stored(dyn))[..a.onumbits]
      ensures a.onumbits < 8 ==> outFifo.Contents() == []
    {
      hide Of, Low, Queue;
      ghost var stored := a.Stored(dyn);
      var i := 0;
      onumbits := a.onumbits;
      while onumbits > 7 && i < 24
        invariant i <= 24 && onumbits == a.onumbits - 8 * i
        invariant outFifo.Valid() && outFifo.Contents() == stored[..i]
      {
        var pushed := outFifo.Push(a.obits[i]);
        i, onumbits := i + 1, onumbits - 8;
      }
      LowOfNext(stored, i, if onumbits < 8 then onumbits else 0);
      LowNone(obyte);
      if onumbits != 0 && i < 24 {
        obyte := a.obits[i];
        return;
      }
      i := 0;
      while onumbits > 7 && i < 7
        invariant i <= 7 && (onumbits == a.onumbits - 8 * (24 + i) || (i == 0 && onumbits == 0))
        invariant outFifo.Valid()
        invariant onumbits == a.onumbits - 8 * |outFifo.Contents()| && outFifo.Contents() <= stored
        invariant onumbits > 7 || i > 0 ==> |outFifo.Contents()| == 24 + i
      {
        var pushed := outFifo.Push(a.obitsExtra[i]);
        i, onumbits := i + 1, onumbits - 8;
      }
      ghost var j := |outFifo.Contents()|;
      LowOfNext(stored, j, onumbits);
      assert outFifo.Contents() == stored[..j];
      if onumbits != 0 && i < 7 {
        obyte := a.obitsExtra[i];
        assert stored[j] == a.obitsExtra[i] && a.onumbits == 8 * j + onumbits;
      }
    }

    /** Left-over bytes go to the FIFO, the incomplete last one to obyte. */
    method StoreLeftover(a: Answer)
      requires a.Valid() && a.onumbits <= 8 * (if dyn then 31 else 23)
      requires outFifo.Valid() && outFifo.Contents() == []
      modifies this`obyte, this`onumbits, outFifo, outFifo.fifo
      ensures outFifo.Valid() && onumbits < 8 && |outFifo.Contents()| <= 31
      ensures Of(outFifo.Contents()) + Low(obyte, onumbits) == Of(a.Stored(dyn))[..a.onumbits]
      ensures a.onumbits < 8 ==> outFifo.Contents() == []
    {
      hide Of, Low, Queue;
      if dyn {
        StoreTwoArrays(a);
      } else {
        ghost var stored := a.Stored(dyn);
        var i := 0;
        onumbits := a.onumbits;
        while onumbits > 7 && i < 23
          invariant i <= 23 && onumbits == a.onumbits - 8 * i
          invariant outFifo.Valid() && outFifo.Contents() == stored[..i]
        {
          var pushed := outFifo.Push(a.obits[i]);
          i, onumbits := i + 1, onumbits - 8;
        }
        LowOfNext(stored, i, onumbits);
        LowNone(obyte);
        if onumbits != 0 {
          obyte := a.obits[i];
        }
      }
    }

    /** The answer's bits: direct output, left-over bytes and the incomplete byte; refused if the card left bytes
        although there was room. */
    method BookBits(a: Answer) returns (ok: bool)
      requires Sound() && outFifo.Contents() == [] && Model().Continues(a) && a.Valid()
      requires a.onumbits <= 8 * (if dyn then 31 else 23) && |a.out| <= availOut
      modifies this`availOut, this`delivered, this`obyte, this`onumbits, this`segs, outFifo, outFifo.fifo
      ensures ok <==> |a.out| == old(availOut) || a.onumbits <= 7
      ensures availOut == old(availOut) - |a.out| && delivered == old(delivered) + a.out
      ensures |old(Model()).Tail()| <= |a.AllBits(dyn)|
      ensures ok ==> Sound() && segs == old(segs) + [Body(a.AllBits(dyn)[|old(Model()).Tail()|..])]
      ensures ok ==> |outFifo.Contents()| <= 31 && (availOut > 0 ==> outFifo.Contents() == [])
    {
      hide Render, Of, Low, Whole, Queue, Answer.AllBits, Answer.Stored, Stream.Continues, Stream.Tail,
           DeflateStream.Model;
      AnswerRenders(a);
      ghost var added, before := a.AllBits(dyn)[onumbits..], delivered;
      ghost var left := Of(a.Stored(dyn))[..a.onumbits];
      delivered := delivered + a.out;
      availOut := availOut - |a.out|;
      if availOut != 0 && a.onumbits > 7 {
        return false;
      }
      StoreLeftover(a);
      AnswerGrows(before, a.out, outFifo.Contents(), Low(obyte, onumbits), left);
      segs := segs + [Body(added)];
      return true;
    }

    /** Books the card's answer. */
    method ProcessResults(a: Answer) returns (rc: int)
      requires Sound() && outFifo.Contents() == []
      requires crc32 == a.crc && adler32 == a.adler && a.executed && a.dictOffs < 16
      requires Model().Continues(a)
      modifies this`availIn, this`availOut, this`totalIn, this`delivered, this`obyte, this`onumbits, this`segs,
               outFifo, outFifo.fifo
      ensures rc <= 0
      ensures rc == 0 <==> a.Accepted(old(availIn), old(availOut), dyn)
      ensures rc == 0 ==>
                && a.onumbits <= 8 * (if dyn then 31 else 23)
                && |old(Model()).Tail()| <= |a.AllBits(dyn)|
                && Sound() && Model() == old(Model()).WithAnswer(a)
                && availIn == old(availIn) - a.inpProcessed
                && availOut == old(availOut) - |a.out|
                && |outFifo.Contents()| <= 31
                && (availOut > 0 ==> outFifo.Contents() == [])
    {
      hide Render, Of, Whole, Answer.AllBits, Answer.Stored, DeflateStream.Sound, OutputFifo.Fifo.Contents;
      if a.inpProcessed > availIn {
        return -309;
      }
      availIn := availIn - a.inpProcessed;
      totalIn := totalIn + a.inpProcessed;
      if |a.out| == 0 || |a.out| > availOut {
        return -309;
      }
      if a.onumbits > 8 * (if dyn then 31 else 23) {
        return -310;
      }
      var ok := BookBits(a);
      return if ok then 0 else -310;
    }

    /** The checksums, the dictionary offset and the results of a request that was executed. */
    method TakeAnswer(a: Answer) returns (ok: bool)
      requires Sound() && outFifo.Contents() == [] && a.executed && Model().Continues(a)
      modifies this`crc32, this`adler32, this`availIn, this`availOut, this`totalIn, this`delivered, this`obyte,
               this`onumbits, this`segs, outFifo, outFifo.fifo
      ensures ok <==> a.Accepted(old(availIn), old(availOut), dyn)
      ensures ok ==>
                && a.onumbits <= 8 * (if dyn then 31 else 23)
                && |old(Model()).Tail()| <= |a.AllBits(dyn)|
                && Sound() && Model() == old(Model()).WithAnswer(a)
                && availIn == old(availIn) - a.inpProcessed
                && availOut == old(availOut) - |a.out|
                && |outFifo.Contents()| <= 31
                && (availOut > 0 ==> outFifo.Contents() == [])
    {
      hide Render, Of, Whole, Answer.AllBits, Answer.Stored, DeflateStream.Sound, OutputFifo.Fifo.Contents;
      crc32, adler32 := a.crc, a.adler;
      if a.dictOffs >= 16 {
        return false;
      }
      var err := ProcessResults(a);
      return err >= 0;
    }

    lemma AnswerRenders(a: Answer)
      requires Sound() && outFifo.Contents() == [] && Model().Continues(a)
      requires a.onumbits <= 8 * (if dyn then 31 else 23)
      ensures |Model().Tail()| == onumbits <= |a.AllBits(dyn)|
      ensures Render(segs + [Body(a.AllBits(dyn)[onumbits..])])
           == Of(delivered) + (Of(a.out) + Of(a.Stored(dyn))[..a.onumbits])
    {
      QueueIsReady();
      var all := a.AllBits(dyn);
      Splice(Render(segs), 8 * |delivered|, all);
      RenderAppend(segs, Body(all[onumbits..]));
      hide Render, Of, Low, Whole, Queue;
      assert Render(segs)[..8 * |delivered|] == Of(delivered);
    }

    /** The finishing block that zedc_deflate contains twice. */
    method FinishStream()
      requires Sound() && Good(Model()) && |outFifo.Contents()| <= 31
      modifies this`onumbits, this`eobAdded, this`trailerAdded, this`segs, this`availOut, this`delivered,
               outFifo, outFifo.fifo
      ensures Sound()
      ensures old(Model()).WithEnd().Ready() >= 0
      ensures Model() == old(Model()).WithEnd().Drain(old(availOut))
      ensures availOut == old(availOut) - (|delivered| - old(|delivered|))
    {
      hide Render, Grammar, Of, SegBits, Whole, PadLen, Low, Queue;
      var eob := WriteEob();
      var trailer := AddTrailer();
      assert Model() == old(Model()).WithEnd();
      WriteOutFifo();
    }

    /** The part of a call behind the card's answer. */
    method AfterCard(flush: Flush, a: Answer, ghost call: Call) returns (rc: Rc)
      requires call.flush == flush && call.availIn == availIn && call.answer == a
      requires Valid() && outFifo.Contents() == [] && !Model().NeedsHeader() && !eobAdded
      requires Model().Continues(a) && Model().Ready() == 0
      modifies this, outFifo, outFifo.fifo
      ensures rc == AfterRequest(old(Model()), call, old(availOut)).1
      ensures rc != StreamError ==>
                Valid() && Model() == AfterRequest(old(Model()), call, old(availOut)).0
    {
      hide Render, Grammar, Of, Whole, AfterRequest, WithFlush, Answer.AllBits, Answer.Stored, Stream.Continues,
           DeflateStream.Sound, OutputFifo.Fifo.Contents;
      ghost var before, room := Model(), availOut;
      RequestOutcome(before, call, room);
      if !a.executed {
        return StreamError;
      }
      var ok := TakeAnswer(a);
      if !ok {
        return StreamError;
      }
      BodyKeepsGood(before, a);
      AfterRequestKeeps(before, call, room);
      FinishOrMark(flush, call);
      rc := CheckEnd();
    }

    method CheckEnd() returns (rc: Rc)
      requires Sound()
      ensures rc == if Model().eobAdded && Model().trailerAdded && Model().Ready() == 0 then StreamEnd else Ok
    {
      QueueIsReady();
      hide Whole, Of;
      if eobAdded && trailerAdded && outFifo.Empty() {
        return StreamEnd;
      }
      return Ok;
    }

    /** Adds what the flush mode asks for and hands out what fits. */
    method FinishOrMark(flush: Flush, ghost call: Call)
      requires Sound() && Good(Model()) && |outFifo.Contents()| <= 31 && (availOut > 0 ==> outFifo.Contents() == [])
      requires call.flush == flush && availIn == call.availIn - call.answer.inpProcessed
      modifies this, outFifo, outFifo.fifo
      ensures Sound()
      ensures WithFlush(old(Model()), call).Ready() >= 0
      ensures Model() == WithFlush(old(Model()), call).Drain(old(availOut))
    {
      hide Render, Grammar, Of, SegBits, PadLen, Low, Queue;
      QueueIsReady();
      FlushGrows(Model(), call);
      if flush == Finish && availIn == 0 {
        FinishStream();
      }
      if flush == SyncFlush || flush == PartialFlush {
        WriteSync();
        WriteOutFifo();
      }
      if flush == FullFlush {
        WriteSync();
        WriteOutFifo();
      }
    }

    /** Header and pending output, up to where the card would be asked. */
    method StartCall(now: bv32, ghost call: Call) returns (refused: bool)
      requires Valid() && call.now == now && call.availOut == availOut
      modifies this`headerAdded, this`segs, this`availOut, this`delivered, outFifo, outFifo.fifo
      ensures refused <==> old(Model()).HeaderRefused()
      ensures !refused ==> Valid() && Model() == AtRequest(old(Model()), call) && availOut == Room(old(Model()), call)
      ensures !refused && availOut > 0 ==> outFifo.Contents() == []
    {
      hide Render, Grammar, Of, SegBits, Whole, PadLen, Header, HeadAccepted, DeflateStream.Sound,
           OutputFifo.Fifo.Contents;
      ghost var before := Model();
      var rc := AddHeader(now);
      if rc == 1 {
        return true;
      }
      HeaderGrows(before, call);
      WriteOutFifo();
      return false;
    }

    /** A call that is to finish and brings no input ends the stream. */
    method EndIfAsked(flush: Flush)
      requires Valid() && outFifo.Contents() == [] && !Model().NeedsHeader()
      modifies this`onumbits, this`eobAdded, this`trailerAdded, this`segs, this`availOut, this`delivered,
               outFifo, outFifo.fifo
      ensures Valid() && Model().Ready() == |outFifo.Contents()| && old(Model()).Ready() == 0
      ensures flush == Finish && availIn == 0 ==>
                old(Model()).WithEnd().Ready() >= 0 && Model() == old(Model()).WithEnd().Drain(old(availOut))
      ensures flush != Finish || availIn != 0 ==>
                Model() == old(Model()) && availOut == old(availOut) && outFifo.Contents() == []
    {
      hide Render, Grammar, Of, Whole, Stream.WithEnd, Stream.Drain, OutputFifo.Fifo.Contents;
      QueueIsReady();
      if flush == Finish && availIn == 0 {
        EndKeepsGood(Model());
        WithEndHasHeader(Model());
        DrainKeepsGood(Model().WithEnd(), availOut);
        FinishStream();
        QueueIsReady();
      }
    }

    /** One call. The card's answer only matters when the call reaches the card. */
    method Deflate(flush: Flush, now: bv32, a: Answer) returns (rc: Rc)
      requires Valid()
      requires Legal(Model(), Call(flush, availIn, availOut, now, a))
      modifies this, outFifo, outFifo.fifo
      ensures rc == Step(old(Model()), Call(flush, old(availIn), old(availOut), now, a)).1
      ensures rc != StreamError ==>
                Valid() && Model() == Step(old(Model()), Call(flush, old(availIn), old(availOut), now, a)).0
    {
      ghost var before, call := Model(), Call(flush, availIn, availOut, now, a);
      hide Render, Grammar, Of, Whole, Header, HeadAccepted, AfterRequest, Stream.Continues, DeflateStream.Sound,
           OutputFifo.Fifo.Contents;
      var refused := StartCall(now, call);
      if refused {
        return StreamError;
      }
      if availOut == 0 {
        return Ok;
      }
      EndIfAsked(flush);
      rc := CheckEnd();
      if rc == StreamEnd {
        return;
      }
      if availOut == 0 {
        return Ok;
      }
      if availIn == 0 {
        return Ok;
      }
      rc := AfterCard(flush, a, call);
    }
  }

  lemma LowNone(b: byte)
    ensures Low(b, 0) == []
  {
  }
}
