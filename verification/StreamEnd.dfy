/** The recogniser of trailing empty blocks behind inflate (lib/hardware.c). */
module StreamEnd {
  import opened Bits
  import opened Framing
  import DeflateSpec
  import opened InflateSpec
  import Inflate

  const WINDOW := 16

  /** An empty block: stored blocks carry padding up to a byte boundary, whose content does not matter. */
  datatype Empty = EmptyFixed(bfinal: bool) | EmptyStored(bfinal: bool, pad: seq<bool>)

  /** The bits of an empty block (RFC 1951, sections 3.2.3, 3.2.4 and 3.2.6). */
  function BlockBits(b: Empty): seq<bool> {
    match b
    case EmptyFixed(f) => [f, true, false] + Zeros(7)
    case EmptyStored(f, pad) => [f, false, false] + pad + Zeros(16) + Ones(16)
  }

  /** Empty blocks from bit position at on: each stored one padded to a byte boundary, only the last one final. */
  ghost predicate Closing(blocks: seq<Empty>, at: nat)
    decreases |blocks|
  {
    && blocks != []
    && (blocks[0].EmptyStored? ==> |blocks[0].pad| == PadLen(at + 3))
    && (if |blocks| == 1 then blocks[0].bfinal
        else !blocks[0].bfinal && Closing(blocks[1..], at + |BlockBits(blocks[0])|))
  }

  function RenderBlocks(blocks: seq<Empty>): seq<bool> {
    if blocks == [] then [] else BlockBits(blocks[0]) + RenderBlocks(blocks[1..])
  }

  /** The string t stands at position at. */
  ghost predicate Holds(bits: seq<bool>, at: nat, t: seq<bool>) {
    at + |t| <= |bits| && bits[at..at + |t|] == t
  }

  /** From position at on there are empty blocks of which only the last one is final. */
  ghost predicate EndsWithEmptyBlocks(bits: seq<bool>, at: nat) {
    exists blocks :: Closing(blocks, at) && Holds(bits, at, RenderBlocks(blocks))
  }

  lemma HoldsConcat(bits: seq<bool>, at: nat, s: seq<bool>, r: seq<bool>)
    ensures Holds(bits, at, s + r) <==> Holds(bits, at, s) && Holds(bits, at + |s|, r)
  {
    if Holds(bits, at, s + r) {
      assert s == (s + r)[..|s|] && r == (s + r)[|s|..];
    }
  }

  lemma HoldsPart(bits: seq<bool>, at: nat, t: seq<bool>, i: nat, j: nat)
    requires Holds(bits, at, t) && i <= j <= |t|
    ensures Holds(bits, at + i, t[i..j])
  {
    assert t == t[..i] + t[i..] && t[i..] == t[i..j] + t[j..];
    HoldsConcat(bits, at, t[..i], t[i..]);
    HoldsConcat(bits, at + i, t[i..j], t[j..]);
    hide Holds;
  }

  lemma HoldsSlice(bits: seq<bool>, i: nat, j: nat)
    requires i <= j <= |bits|
    ensures Holds(bits, i, bits[i..j])
  {
  }

  lemma HoldsBit(bits: seq<bool>, at: nat, t: seq<bool>, k: nat)
    requires Holds(bits, at, t) && k < |t|
    ensures at + k < |bits| && bits[at + k] == t[k]
  {
  }

  /** The number whose binary digits are s, most significant digit first. */
  function Number(s: seq<bool>): nat {
    if s == [] then 0 else 2 * Number(s[..|s| - 1]) + (if s[|s| - 1] then 1 else 0)
  }

  lemma {:induction false} NumberInjective(a: seq<bool>, b: seq<bool>)
    requires |a| == |b| && Number(a) == Number(b)
    ensures a == b
    decreases |a|
  {
    if a != [] {
      NumberInjective(a[..|a| - 1], b[..|b| - 1]);
      assert a == a[..|a| - 1] + [a[|a| - 1]] && b == b[..|b| - 1] + [b[|b| - 1]];
    }
  }

  lemma {:induction false} NumberZeros(n: nat)
    ensures Number(Zeros(n)) == 0
  {
    if n > 0 {
      assert Zeros(n)[..n - 1] == Zeros(n - 1);
      NumberZeros(n - 1);
    }
  }

  function Pow2(n: nat): nat {
    if n == 0 then 1 else 2 * Pow2(n - 1)
  }

  lemma {:induction false} NumberOnes(s: seq<bool>, n: nat)
    ensures Number(s + Ones(n)) == Number(s) * Pow2(n) + Pow2(n) - 1
  {
    var t := s + Ones(n);
    if n == 0 {
      assert t == s;
    } else {
      assert t[..|t| - 1] == s + Ones(n - 1);
      NumberOnes(s, n - 1);
    }
  }

  lemma Number32(bits: seq<bool>, at: nat)
    requires at + 32 <= |bits|
    ensures Number(bits[at..at + 32]) == 0xffff <==> Holds(bits, at, Zeros(16) + Ones(16))
  {
    NumberZeros(16);
    NumberOnes(Zeros(16), 16);
    assert Pow2(4) == 16 && Pow2(8) == 16 * Pow2(4) && Pow2(12) == 16 * Pow2(8) && Pow2(16) == 16 * Pow2(12);
    hide Number, Pow2;
    if Number(bits[at..at + 32]) == 0xffff {
      NumberInjective(bits[at..at + 32], Zeros(16) + Ones(16));
    }
  }

  lemma Number7(bits: seq<bool>, at: nat)
    requires at + 7 <= |bits|
    ensures Number(bits[at..at + 7]) == 0 <==> Holds(bits, at, Zeros(7))
  {
    NumberZeros(7);
    hide Number;
    if Number(bits[at..at + 7]) == 0 {
      NumberInjective(bits[at..at + 7], Zeros(7));
    }
  }

  lemma Number3(s: seq<bool>)
    requires |s| == 3
    ensures Number(s) == (if s[0] then 4 else 0) + (if s[1] then 2 else 0) + (if s[2] then 1 else 0)
  {
    assert s[..2][..1] == [s[0]];
    assert Number([s[0]]) == if s[0] then 1 else 0 by {
      assert [s[0]][..0] == [];
    }
    assert Number(s[..2]) == 2 * Number([s[0]]) + (if s[1] then 1 else 0);
  }

  // ---- the recogniser as a function of the position ----

  ghost predicate IsFixed(bits: seq<bool>, at: nat) {
    at + 3 <= |bits| && bits[at + 1] && !bits[at + 2] && Holds(bits, at + 3, Zeros(7))
  }

  /** Where the length words of a stored block start. */
  function LengthWords(at: nat): nat {
    at + 3 + PadLen(at + 3)
  }

  ghost predicate IsStored(bits: seq<bool>, at: nat) {
    at + 3 <= |bits| && !bits[at + 1] && !bits[at + 2] && Holds(bits, LengthWords(at), Zeros(16) + Ones(16))
  }

  ghost predicate Closes(bits: seq<bool>, at: nat)
    decreases |bits| - at
  {
    if IsFixed(bits, at) then bits[at] || Closes(bits, at + 10)
    else if IsStored(bits, at) then bits[at] || Closes(bits, LengthWords(at) + 32)
    else false
  }

  /** A block that is found at a position stands there, and the other way round. */
  lemma BlockFound(bits: seq<bool>, at: nat, b: Empty)
    requires b.EmptyStored? ==> |b.pad| == PadLen(at + 3)
    ensures b.EmptyFixed? && Holds(bits, at, BlockBits(b)) ==> IsFixed(bits, at) && bits[at] == b.bfinal
    ensures b.EmptyStored? && Holds(bits, at, BlockBits(b)) ==>
              !IsFixed(bits, at) && IsStored(bits, at) && bits[at] == b.bfinal
    ensures |BlockBits(b)| == if b.EmptyFixed? then 10 else LengthWords(at) + 32 - at
  {
    var s := BlockBits(b);
    if Holds(bits, at, s) {
      HoldsBit(bits, at, s, 0);
      HoldsBit(bits, at, s, 1);
      HoldsBit(bits, at, s, 2);
      HoldsPart(bits, at, s, |s| - (if b.EmptyFixed? then 7 else 32), |s|);
      assert b.EmptyFixed? ==> s[3..] == Zeros(7);
      assert b.EmptyStored? ==> s[|s| - 32..] == Zeros(16) + Ones(16);
    }
    hide Holds, PadLen;
  }

  lemma FixedStands(bits: seq<bool>, at: nat)
    requires IsFixed(bits, at)
    ensures Holds(bits, at, BlockBits(EmptyFixed(bits[at])))
  {
    var h := bits[at..at + 3];
    assert h == [bits[at], true, false];
    HoldsSlice(bits, at, at + 3);
    hide Holds;
    HoldsConcat(bits, at, h, Zeros(7));
  }

  lemma StoredStands(bits: seq<bool>, at: nat) returns (pad: seq<bool>)
    requires IsStored(bits, at)
    ensures |pad| == PadLen(at + 3) && Holds(bits, at, BlockBits(EmptyStored(bits[at], pad)))
  {
    pad := bits[at + 3..LengthWords(at)];
    var h, w := bits[at..at + 3], Zeros(16) + Ones(16);
    assert h == [bits[at], false, false];
    HoldsSlice(bits, at, at + 3);
    HoldsSlice(bits, at + 3, LengthWords(at));
    hide PadLen, Holds;
    HoldsConcat(bits, at + 3, pad, w);
    HoldsConcat(bits, at, h, pad + w);
    assert BlockBits(EmptyStored(bits[at], pad)) == h + (pad + w);
  }

  lemma ConsBlock(bits: seq<bool>, at: nat, b: Empty, rest: seq<Empty>)
    requires Holds(bits, at, BlockBits(b)) && (b.EmptyStored? ==> |b.pad| == PadLen(at + 3))
    requires if b.bfinal then rest == []
             else Closing(rest, at + |BlockBits(b)|) && Holds(bits, at + |BlockBits(b)|, RenderBlocks(rest))
    ensures Closing([b] + rest, at) && Holds(bits, at, RenderBlocks([b] + rest))
  {
    hide BlockBits, PadLen;
    assert ([b] + rest)[1..] == rest;
    HoldsConcat(bits, at, BlockBits(b), RenderBlocks(rest));
    hide Holds;
    if b.bfinal {
      assert BlockBits(b) + RenderBlocks(rest) == BlockBits(b);
    }
  }

  lemma ClosesMeans(bits: seq<bool>, at: nat)
    requires Closes(bits, at)
    ensures at < |bits| && (IsFixed(bits, at) || IsStored(bits, at))
    ensures bits[at] || Closes(bits, if IsFixed(bits, at) then at + 10 else LengthWords(at) + 32)
  {
  }

  /** The block that the recogniser passes. */
  lemma BlockStands(bits: seq<bool>, at: nat) returns (b: Empty)
    requires Closes(bits, at)
    ensures at < |bits| && b.bfinal == bits[at] && Holds(bits, at, BlockBits(b))
    ensures b.EmptyStored? ==> |b.pad| == PadLen(at + 3)
    ensures b.bfinal || Closes(bits, at + |BlockBits(b)|)
  {
    hide Holds, Closes, IsFixed, IsStored, PadLen, BlockBits;
    ClosesMeans(bits, at);
    if IsFixed(bits, at) {
      b := EmptyFixed(bits[at]);
      FixedStands(bits, at);
    } else {
      var pad := StoredStands(bits, at);
      b := EmptyStored(bits[at], pad);
    }
    BlockFound(bits, at, b);
  }

  lemma {:induction false} ClosesIsClosing(bits: seq<bool>, at: nat)
    requires Closes(bits, at)
    ensures EndsWithEmptyBlocks(bits, at)
    decreases |bits| - at
  {
    hide Holds, Closes, Closing, RenderBlocks, PadLen, BlockBits;
    var b := BlockStands(bits, at);
    SomeBits(b);
    var rest: seq<Empty> := [];
    if !b.bfinal {
      var next := at + |BlockBits(b)|;
      ClosesMeans(bits, next);
      ClosesIsClosing(bits, next);
      rest :| Closing(rest, next) && Holds(bits, next, RenderBlocks(rest));
    }
    ConsBlock(bits, at, b, rest);
  }

  lemma SomeBits(b: Empty)
    ensures |BlockBits(b)| > 0
  {
  }

  lemma {:induction false} ClosingIsClosed(bits: seq<bool>, at: nat, blocks: seq<Empty>)
    requires Closing(blocks, at) && Holds(bits, at, RenderBlocks(blocks))
    ensures Closes(bits, at)
    decreases |blocks|
  {
    hide BlockBits, IsFixed, IsStored, LengthWords, PadLen, Holds;
    var b, rest := blocks[0], blocks[1..];
    HoldsConcat(bits, at, BlockBits(b), RenderBlocks(rest));
    BlockFound(bits, at, b);
    if !b.bfinal {
      ClosingIsClosed(bits, at + |BlockBits(b)|, rest);
    }
  }

  /** The recogniser finds such blocks exactly when they are there. */
  lemma ClosesIff(bits: seq<bool>, at: nat)
    ensures Closes(bits, at) <==> EndsWithEmptyBlocks(bits, at)
  {
    hide Holds, Closes;
    if Closes(bits, at) {
      ClosesIsClosing(bits, at);
    }
    if EndsWithEmptyBlocks(bits, at) {
      var blocks :| Closing(blocks, at) && Holds(bits, at, RenderBlocks(blocks));
      ClosingIsClosed(bits, at, blocks);
    }
  }

  // ---- what deflate writes at the end is recognised ----

  /** Any number of flush markers, then the end of block and the closing block, from bit position at on. */
  function DeflateTail(markers: nat, at: nat): seq<bool> {
    if markers == 0 then DeflateSpec.SegBits(DeflateSpec.Close, at)
    else
      var s := DeflateSpec.SegBits(DeflateSpec.Sync, at);
      s + DeflateTail(markers - 1, at + |s|)
  }

  /** A marker as the scan sees it, behind an end of block at position at: an empty stored block, and the header of a
      fixed block which the next piece ends at once. */
  function MarkerBits(at: nat): seq<bool> {
    BlockBits(EmptyStored(false, Zeros(PadLen(at + 3)))) + BlockBits(EmptyFixed(false))
  }

  /** The same tail from behind the end of block with which it begins. */
  function AfterEob(markers: nat, at: nat): seq<bool> {
    if markers == 0 then BlockBits(EmptyFixed(true)) + Zeros(PadLen(at + 10))
    else MarkerBits(at) + AfterEob(markers - 1, at + |MarkerBits(at)|)
  }

  lemma SyncIsMarker(at: nat)
    ensures DeflateSpec.SegBits(DeflateSpec.Sync, at) + Zeros(7) == Zeros(7) + MarkerBits(at + 7)
  {
    hide PadLen;
  }

  lemma CloseIsRest(at: nat)
    ensures DeflateSpec.SegBits(DeflateSpec.Close, at) == Zeros(7) + AfterEob(0, at + 7)
  {
    hide PadLen;
  }

  lemma {:induction false} TailIsEobAndRest(markers: nat, at: nat)
    ensures DeflateTail(markers, at) == Zeros(7) + AfterEob(markers, at + 7)
    decreases markers
  {
    hide DeflateSpec.SegBits, MarkerBits;
    if markers == 0 {
      CloseIsRest(at);
    } else {
      var s, m := DeflateSpec.SegBits(DeflateSpec.Sync, at), MarkerBits(at + 7);
      var rest := AfterEob(markers - 1, at + 7 + |m|);
      SyncIsMarker(at);
      assert |s| + 7 == 7 + |m|;
      TailIsEobAndRest(markers - 1, at + |s|);
      Regroup(s, Zeros(7), rest);
      Regroup(Zeros(7), m, rest);
    }
  }

  lemma OneStep(bits: seq<bool>, at: nat)
    ensures IsFixed(bits, at) ==> at < |bits| && Closes(bits, at) == (bits[at] || Closes(bits, at + 10))
    ensures !IsFixed(bits, at) && IsStored(bits, at) ==>
              at < |bits| && Closes(bits, at) == (bits[at] || Closes(bits, LengthWords(at) + 32))
  {
  }

  lemma MarkerPassed(bits: seq<bool>, at: nat)
    requires Holds(bits, at, MarkerBits(at))
    ensures Closes(bits, at) == Closes(bits, at + |MarkerBits(at)|)
  {
    hide PadLen, Closes, Holds, BlockBits, IsFixed, IsStored;
    var stored, fixed := EmptyStored(false, Zeros(PadLen(at + 3))), EmptyFixed(false);
    var next := at + |BlockBits(stored)|;
    HoldsConcat(bits, at, BlockBits(stored), BlockBits(fixed));
    BlockFound(bits, at, stored);
    BlockFound(bits, next, fixed);
    OneStep(bits, at);
    OneStep(bits, next);
  }

  lemma FinalFound(bits: seq<bool>, at: nat)
    requires Holds(bits, at, AfterEob(0, at))
    ensures Closes(bits, at)
  {
    hide PadLen, Closes, Holds, BlockBits, IsFixed, IsStored;
    HoldsConcat(bits, at, BlockBits(EmptyFixed(true)), Zeros(PadLen(at + 10)));
    BlockFound(bits, at, EmptyFixed(true));
    OneStep(bits, at);
  }

  lemma {:induction false} AfterEobCloses(bits: seq<bool>, at: nat, markers: nat)
    requires Holds(bits, at, AfterEob(markers, at))
    ensures Closes(bits, at)
    decreases markers
  {
    hide Holds, Closes, MarkerBits, BlockBits, PadLen;
    if markers == 0 {
      FinalFound(bits, at);
    } else {
      HoldsConcat(bits, at, MarkerBits(at), AfterEob(markers - 1, at + |MarkerBits(at)|));
      MarkerPassed(bits, at);
      AfterEobCloses(bits, at + |MarkerBits(at)|, markers - 1);
    }
  }

  /** A string that holds all of the tail closes behind the first end-of-block symbol. */
  lemma DeflateTailCloses(bits: seq<bool>, at: nat, markers: nat)
    requires Holds(bits, at, DeflateTail(markers, at))
    ensures EndsWithEmptyBlocks(bits, at + 7)
  {
    hide Holds, Closes, EndsWithEmptyBlocks, AfterEob, DeflateTail;
    TailIsEobAndRest(markers, at);
    HoldsConcat(bits, at, Zeros(7), AfterEob(markers, at + 7));
    AfterEobCloses(bits, at + 7, markers);
    ClosesIff(bits, at + 7);
  }

  /** The first marker ends at bit 50 or 58, every other one is 48 bits long. */
  lemma MarkerLength(at: nat)
    ensures at < 8 ==> at + |MarkerBits(at)| == if at < 6 then 50 else 58
    ensures Part(at) == 2 ==> |MarkerBits(at)| == 48
  {
  }

  lemma {:induction false} TailLength(markers: nat, at: nat)
    requires Part(at) == 2
    ensures |AfterEob(markers, at)| == 48 * markers + 14
    decreases markers
  {
    if markers == 0 {
      assert PadLen(at + 10) == 4;
    } else {
      MarkerLength(at);
      hide MarkerBits;
      assert Part(at + 48) == 2 by { LaterPart(at, 6); }
      TailLength(markers - 1, at + 48);
    }
  }

  lemma LaterPart(at: nat, bytes: nat)
    ensures Part(at + 8 * bytes) == Part(at) && PadLen(at + 8 * bytes) == PadLen(at)
  {
    assert Whole(at + 8 * bytes) == Whole(at) + bytes;
    assert Whole(at + 8 * bytes + 7) == Whole(at + 7) + bytes;
  }

  /** Up to two markers and the end fit in the window. */
  lemma ShortTailFits(markers: nat, at: nat)
    requires at < 8 && markers <= 2
    ensures at + |AfterEob(markers, at)| <= 8 * WINDOW
  {
    if markers > 0 {
      MarkerLength(at);
      hide MarkerBits;
      TailLength(markers - 1, at + |MarkerBits(at)|);
    }
  }

  lemma HoldsInPrefix(w: seq<bool>, bits: seq<bool>, at: nat, t: seq<bool>)
    requires w <= bits && Holds(bits, at, t) && at + |t| <= |w|
    ensures Holds(w, at, t)
  {
    assert w[at..at + |t|] == bits[at..at + |t|];
  }

  /** A stored block whose length words do not fit is not passed. */
  lemma CutBlock(bits: seq<bool>, at: nat)
    requires at + 3 <= |bits| && !bits[at + 1] && LengthWords(at) + 32 > |bits|
    ensures !Closes(bits, at)
  {
  }

  lemma MarkerStarts(at: nat)
    requires Part(at) == 2
    ensures |MarkerBits(at)| == 48 && !MarkerBits(at)[1] && LengthWords(at) == at + 6
  {
  }

  /** The third of several markers is cut by the end of the window. */
  lemma LongTailMissed(w: seq<bool>, bits: seq<bool>, at: nat, markers: nat)
    requires at < 8 && markers >= 3 && w <= bits && |w| == 8 * WINDOW && Holds(bits, at, AfterEob(markers, at))
    ensures !Closes(w, at)
  {
    var at2 := at + |MarkerBits(at)|;
    var at3 := at2 + 48;
    hide MarkerBits, Holds, Closes, LengthWords;
    MarkerLength(at);
    MarkerLength(at2);
    LaterPart(at2, 6);
    MarkerStarts(at3);
    var m, m2, m3 := MarkerBits(at), MarkerBits(at2), MarkerBits(at3);
    HoldsConcat(bits, at, m, AfterEob(markers - 1, at2));
    HoldsConcat(bits, at2, m2, AfterEob(markers - 2, at3));
    HoldsConcat(bits, at3, m3, AfterEob(markers - 3, at3 + |m3|));
    HoldsBit(bits, at3, m3, 1);
    HoldsInPrefix(w, bits, at, m);
    HoldsInPrefix(w, bits, at2, m2);
    MarkerPassed(w, at);
    MarkerPassed(w, at2);
    CutBlock(w, at3);
  }

  /** Where data begin behind an end-of-block symbol of deflate, the scan of the window sees the end if and only if at
      most two markers come before it. */
  lemma TailSeenIff(data: seq<byte>, at: nat, markers: nat)
    requires at < 8 && Holds(Of(data), at, AfterEob(markers, at))
    ensures EndsWithEmptyBlocks(Of(Window(data, [])), at) <==> markers <= 2
  {
    var bits, w := Of(data), Of(Window(data, []));
    WindowShowsPending(data, 0, []);
    assert bits[0..] + Of([]) == bits && w[0..] == w;
    ClosesIff(w, at);
    hide Closes, EndsWithEmptyBlocks, Of, Window, AfterEob;
    if markers <= 2 {
      ShortTailFits(markers, at);
      if |data| <= WINDOW {
        assert w == bits;
      } else {
        HoldsInPrefix(w, bits, at, AfterEob(markers, at));
      }
      AfterEobCloses(w, at, markers);
    } else {
      LongTail(markers, at);
      LongTailMissed(w, bits, at, markers);
    }
  }

  lemma {:induction false} AfterEobShifts(markers: nat, at: nat, bytes: nat)
    ensures AfterEob(markers, at + 8 * bytes) == AfterEob(markers, at)
    decreases markers
  {
    LaterPart(at + 3, bytes);
    LaterPart(at + 10, bytes);
    hide PadLen;
    if markers > 0 {
      AfterEobShifts(markers - 1, at + |MarkerBits(at)|, bytes);
    }
  }

  /** The first k pieces of a stream. */
  function Front(s: DeflateSpec.Stream, k: nat): seq<bool>
    requires k <= |s.segs|
  {
    DeflateSpec.Render(s.segs[..k])
  }

  lemma NextPiece(s: DeflateSpec.Stream, k: nat)
    requires k < |s.segs|
    ensures Front(s, k + 1) == Front(s, k) + DeflateSpec.SegBits(s.segs[k], |Front(s, k)|)
  {
    assert s.segs[..k + 1] == s.segs[..k] + [s.segs[k]];
    DeflateSpec.RenderAppend(s.segs[..k], s.segs[k]);
  }

  lemma AllPieces(s: DeflateSpec.Stream)
    ensures Front(s, |s.segs|) == s.Bits()
  {
    assert s.segs[..|s.segs|] == s.segs;
  }

  lemma TailPieces(s: DeflateSpec.Stream)
    requires DeflateSpec.Complete(s)
    ensures var end := |s.segs| - 2; end > 0 && s.segs[end] == DeflateSpec.Close
                                     && (s.segs[end - 1].Sync? ==> end > 1 && !s.segs[end - 2].Sync?)
  {
    hide DeflateSpec.Render;
  }

  lemma HoldsMiddle(a: seq<bool>, t: seq<bool>, b: seq<bool>)
    ensures Holds(a + t + b, |a|, t)
  {
  }

  lemma OneMarkerTail(at: nat)
    ensures DeflateTail(0, at) == DeflateSpec.SegBits(DeflateSpec.Close, at)
    ensures var m := DeflateSpec.SegBits(DeflateSpec.Sync, at); DeflateTail(1, at) == m + DeflateTail(0, at + |m|)
  {
    hide DeflateSpec.SegBits;
  }

  /** A complete stream closes behind at most one marker; k is the first piece of its tail. */
  lemma StreamTail(s: DeflateSpec.Stream) returns (k: nat, markers: nat)
    requires DeflateSpec.Complete(s)
    ensures markers <= 1 && k + markers + 2 == |s.segs| && (k > 0 ==> !s.segs[k - 1].Sync?)
    ensures Holds(s.Bits(), |Front(s, k)|, DeflateTail(markers, |Front(s, k)|))
  {
    hide DeflateSpec.Render, DeflateSpec.SegBits, DeflateSpec.Complete, Front, DeflateTail, Holds;
    TailPieces(s);
    AllPieces(s);
    var end := |s.segs| - 2;
    markers := if s.segs[end - 1].Sync? then 1 else 0;
    k := end - markers;
    NextPiece(s, k);
    NextPiece(s, end);
    NextPiece(s, end + 1);
    var front, at := Front(s, k), |Front(s, k)|;
    OneMarkerTail(at);
    OneMarkerTail(|Front(s, end)|);
    Regroup(front, DeflateSpec.SegBits(s.segs[k], at), DeflateTail(0, |Front(s, end)|));
    HoldsMiddle(front, DeflateTail(markers, at), DeflateSpec.SegBits(s.segs[end + 1], |Front(s, end + 1)|));
  }

  /** Where the last data of a complete stream end, the scan of what is left sees the end. */
  lemma OwnEndSeen(s: DeflateSpec.Stream, bytes: seq<byte>) returns (k: nat, markers: nat)
    requires DeflateSpec.Complete(s) && Of(bytes) == s.Bits()
    ensures markers <= 1 && k + markers + 2 == |s.segs| && (k > 0 ==> !s.segs[k - 1].Sync?)
    ensures var at := |Front(s, k)| + 7;
            Whole(at) <= |bytes| && EndsWithEmptyBlocks(Of(Window(bytes[Whole(at)..], [])), Part(at))
  {
    hide Of, Window, DeflateTail, AfterEob, EndsWithEmptyBlocks, Front, DeflateSpec.Complete, DeflateSpec.Render, Holds,
         Whole, Part;
    k, markers := StreamTail(s);
    EndSeenAt(bytes, |Front(s, k)|, markers);
  }

  /** The window from the byte in which the end of block ends. */
  lemma EndSeenAt(bytes: seq<byte>, eob: nat, markers: nat)
    requires Holds(Of(bytes), eob, DeflateTail(markers, eob)) && markers <= 2
    ensures var at := eob + 7;
            Whole(at) <= |bytes| && EndsWithEmptyBlocks(Of(Window(bytes[Whole(at)..], [])), Part(at))
  {
    hide Of, Window, DeflateTail, AfterEob, EndsWithEmptyBlocks, Holds, Whole, Part;
    var at := eob + 7;
    var j, p := Whole(at), Part(at);
    assert at == p + 8 * j;
    TailIsEobAndRest(markers, eob);
    HoldsConcat(Of(bytes), eob, Zeros(7), AfterEob(markers, at));
    AfterEobShifts(markers, p, j);
    HoldsBehind(Of(bytes), 8 * j, p, AfterEob(markers, at));
    OfDrop(bytes, j);
    TailSeenIff(bytes[j..], p, markers);
  }

  lemma HoldsBehind(bits: seq<bool>, n: nat, at: nat, t: seq<bool>)
    requires Holds(bits, n + at, t)
    ensures n <= |bits| && Holds(bits[n..], at, t)
  {
    assert bits[n..][at..at + |t|] == bits[n + at..n + at + |t|];
  }

  lemma LongTail(markers: nat, at: nat)
    requires at < 8 && markers >= 3
    ensures at + |AfterEob(markers, at)| > 8 * WINDOW
  {
    MarkerLength(at);
    hide MarkerBits;
    TailLength(markers - 1, at + |MarkerBits(at)|);
  }

  // ---- the recogniser as it is written ----

  datatype State = ReadHdr | CopyBlock | FixedHuffman | DynHuffman

  lemma BitAt(s: seq<byte>, i: nat, k: nat)
    requires i < |s| && k < 8
    ensures 8 * i + k < |Of(s)| && Of(s)[8 * i + k] == Bit(s[i], k)
  {
  }

  lemma NumberStep(bits: seq<bool>, at: nat, n: nat)
    requires at + n < |bits|
    ensures Number(bits[at..at + n + 1]) == 2 * Number(bits[at..at + n]) + (if bits[at + n] then 1 else 0)
  {
    var t := bits[at..at + n + 1];
    assert t[..|t| - 1] == bits[at..at + n];
  }

  lemma NoNumber()
    ensures Number([]) == 0
  {
  }

  lemma PadAtEnd(at: nat, n: nat)
    ensures Aligned(at) ==> PadLen(at) == 0
    ensures Aligned(at + n) && n < 8 ==> PadLen(at) == n
  {
  }

  class StreamEnding {
    const d: array<byte>
    var procBits: nat
    var remainingBytes: nat
    var availIn: nat
    var idx: nat
    var inHdrScratchLen: nat
    var state: State

    /** Scratch bytes first, then input, up to the size of the window. */
    constructor (scratch: seq<byte>, procBits: nat, input: seq<byte>)
      requires procBits < 8
      ensures Valid() && state == ReadHdr && Pos() == procBits && d[..availIn] == Window(scratch, input)
    {
      var len := Min(|scratch|, WINDOW);
      var more := Min(|input|, WINDOW - len);
      d := new byte[WINDOW](i => if 0 <= i < len then scratch[i]
                                 else if len <= i < len + more then input[i - len] else 0);
      state, idx, inHdrScratchLen := ReadHdr, 0, |scratch|;
      this.procBits := procBits;
      availIn := len + more;
      remainingBytes := WINDOW - len - more;
    }

    ghost predicate Valid()
      reads this`availIn, this`procBits
    {
      d.Length == WINDOW && availIn <= WINDOW && procBits < 8
    }

    /** The collected bits, and the position in them. */
    ghost function All(): seq<bool>
      requires Valid()
      reads this`availIn, this`procBits, d
    {
      Of(d[..availIn])
    }

    ghost function Pos(): nat
      reads this`idx, this`procBits
    {
      8 * idx + procBits
    }

    /** Reads bits without moving; rc tells that there are not that many. */
    method GetBits(bits: nat) returns (rc: bool, data: nat)
      requires Valid() && bits > 0
      ensures rc <==> Pos() + bits > |All()|
      ensures !rc ==> data == Number(All()[Pos()..Pos() + bits])
    {
      hide Of, Bit, Number;
      rc, data := false, 0;
      var i: nat, p: nat, b: nat := idx, procBits, 0;
      ghost var all, at := All(), Pos();
      assert at <= |all| ==> all[at..at] == [];
      NoNumber();
      while b < bits
        invariant b <= bits && (b < bits ==> p < 8 && 8 * i + p == at + b)
        invariant rc <==> b > 0 && at + b > |all|
        invariant !rc ==> data == if b == 0 then 0 else Number(all[at..at + b])
      {
        while p < 8 && b < bits
          invariant p <= 8 && b <= bits && 8 * i + p == at + b
          invariant rc <==> b > 0 && at + b > |all|
          invariant !rc ==> data == if b == 0 then 0 else Number(all[at..at + b])
          decreases bits - b
        {
          data := 2 * data;
          if i >= availIn {
            rc := true;
          } else {
            BitAt(d[..availIn], i, p);
            NumberStep(all, at, b);
            if Bit(d[i], p) {
              data := data + 1;
            }
          }
          p, b := p + 1, b + 1;
        }
        p, i := 0, i + 1;
      }
    }

    /** Moves on, unless that would reach the end of the data; rc tells that it would. */
    method DropBits(bits: nat) returns (rc: bool)
      requires Valid()
      modifies this`idx, this`procBits
      ensures Valid()
      ensures rc <==> old(Pos()) + bits >= |All()|
      ensures Pos() == old(Pos()) + if rc then 0 else bits
    {
      var i := idx + Whole(procBits + bits);
      if i >= availIn {
        return true;
      }
      idx, procBits := i, Part(procBits + bits);
      return false;
    }

    method SyncToByte()
      requires Valid()
      modifies this`idx, this`procBits
      ensures Valid()
      ensures Pos() == old(Pos()) + PadLen(old(Pos()))
    {
      if procBits == 0 {
        return;
      }
      procBits := 0;
      idx := idx + 1;
    }

    /** What is known when a state is entered: h is where the header of the current block starts. */
    ghost predicate Scanning(start: nat, h: nat, bfinal: bool)
      requires Valid()
      reads this, d
    {
      && Closes(All(), start) == Closes(All(), h)
      && match state
         case ReadHdr => !bfinal && h == Pos()
         case DynHuffman => false
         case _ =>
           && h + 3 <= |All()| && (Pos() == h + 3 || (Pos() == h && |All()| == h + 3))
           && All()[h] == bfinal && All()[h + 1] == (state == FixedHuffman) && !All()[h + 2]
    }

    /** Termination measure of the scan. */
    ghost function Fuel(): int
      requires Valid()
      reads this, d
    {
      var r := |All()| - Pos();
      match state
      case ReadHdr => 2 * r + 1
      case _ => if r >= 7 then 2 * r + 2 else 2 * r
    }

    lemma HeaderRead(start: nat, h: nat)
      requires Valid() && state == ReadHdr && Scanning(start, h, false)
      ensures Pos() + 3 > |All()| ==> !Closes(All(), start)
      ensures Pos() + 3 <= |All()| && (All()[Pos() + 2] || (All()[Pos() + 1] && All()[Pos() + 2])) ==>
              !Closes(All(), start)
    {
    }

    /** The three bits of a block header. */
    method ReadHeader(ghost start: nat, ghost h0: nat) returns (stop: bool, bfinal: bool, ghost h: nat)
      requires Valid() && state == ReadHdr && Scanning(start, h0, false)
      modifies this`idx, this`procBits, this`state
      ensures Valid() && (stop ==> !Closes(All(), start))
      ensures !stop ==>
                Scanning(start, h, bfinal) && state != ReadHdr && state != DynHuffman && Fuel() < old(Fuel())
                && old(Fuel()) >= 0
    {
      hide Of, Closes, Number;
      HeaderRead(start, h0);
      bfinal, h := false, Pos();
      var rc, d := GetBits(3);
      if rc {
        return true, false, h;
      }
      Number3(All()[h..h + 3]);
      var eof := DropBits(3);
      if d % 4 == 0 {
        state := CopyBlock;
      } else if d % 4 == 1 {
        state := DynHuffman;
        return true, false, h;
      } else if d % 4 == 2 {
        state := FixedHuffman;
      } else {
        return true, false, h;
      }
      bfinal := d / 4 % 2 == 1;
      stop := false;
    }

    /** The end-of-block symbol of a fixed block. */
    method FixedBlock(ghost start: nat, bfinal: bool, ghost h: nat) returns (stop: bool, end: bool)
      requires Valid() && state == FixedHuffman && Scanning(start, h, bfinal)
      modifies this`idx, this`procBits, this`state
      ensures Valid() && (stop ==> end == Closes(All(), start))
      ensures !stop ==>
                !bfinal && state == ReadHdr && Scanning(start, Pos(), false) && Fuel() < old(Fuel()) && old(Fuel()) >= 0
    {
      hide Of;
      FixedStep(All(), h);
      hide Closes, IsFixed;
      var rc, d := GetBits(7);
      if rc {
        return true, false;
      }
      Number7(All(), Pos());
      hide Number, Holds;
      var eof := DropBits(7);
      if d != 0 {
        return true, false;
      }
      state := ReadHdr;
      return bfinal, bfinal;
    }

    /** The length words of a stored block. */
    method StoredBlock(ghost start: nat, bfinal: bool, ghost h: nat) returns (stop: bool, end: bool)
      requires Valid() && state == CopyBlock && Scanning(start, h, bfinal)
      modifies this`idx, this`procBits, this`state
      ensures Valid() && (stop ==> end == Closes(All(), start))
      ensures !stop ==>
                !bfinal && state == ReadHdr && Scanning(start, Pos(), false) && Fuel() < old(Fuel()) && old(Fuel()) >= 0
    {
      hide Of, Closes, Number, IsStored, PadLen;
      StoredStep(All(), h);
      PadAtEnd(h, 3);
      ghost var w := LengthWords(h);
      SyncToByte();
      assert Pos() == w;
      hide LengthWords;
      var rc, d := GetBits(32);
      if rc {
        return true, false;
      }
      Number32(All(), Pos());
      var eof := DropBits(32);
      if d != 0x0000ffff {
        return true, false;
      }
      state := ReadHdr;
      return bfinal, bfinal;
    }

    /** The endless loop: it ends, and says whether the collected bits end the stream. */
    method Scan() returns (end: bool)
      requires Valid() && state == ReadHdr
      modifies this`idx, this`procBits, this`state
      ensures Valid() && end == Closes(old(All()), old(Pos()))
    {
      hide Of, Closes, Fuel, Scanning;
      ghost var start := Pos();
      ghost var h, bfinal := Pos(), false;
      ScanStarts();
      var ret := false;
      while true
        invariant Valid() && All() == old(All()) && Scanning(start, h, ret) && state != DynHuffman
        invariant state == ReadHdr ==> !ret
        decreases Fuel()
      {
        var stop: bool;
        match state {
          case ReadHdr =>
            stop, ret, h := ReadHeader(start, h);
            if stop {
              return false;
            }
          case FixedHuffman =>
            stop, end := FixedBlock(start, ret, h);
            if stop {
              return;
            }
            h := Pos();
          case CopyBlock =>
            stop, end := StoredBlock(start, ret, h);
            if stop {
              return;
            }
            h := Pos();
        }
      }
    }

    lemma ScanStarts()
      requires Valid() && state == ReadHdr
      ensures Scanning(Pos(), Pos(), false)
    {
    }
  }

  /** A fixed block header at h: the block is empty, and then the rest decides; nothing follows the end of the data. */
  lemma FixedStep(bits: seq<bool>, h: nat)
    requires Aligned(|bits|) && h + 3 <= |bits| && bits[h + 1] && !bits[h + 2]
    ensures !Holds(bits, h + 3, Zeros(7)) ==> !Closes(bits, h)
    ensures Holds(bits, h + 3, Zeros(7)) ==> Closes(bits, h) == (bits[h] || Closes(bits, h + 10))
    ensures Holds(bits, h + 3, Zeros(7)) && h + 10 == |bits| ==> !Closes(bits, h + 10) && !Closes(bits, h + 3)
  {
    if Holds(bits, h + 3, Zeros(7)) {
      HoldsBit(bits, h + 3, Zeros(7), 1);
    }
  }

  lemma StoredStep(bits: seq<bool>, h: nat)
    requires Aligned(|bits|) && h + 3 <= |bits| && !bits[h + 1] && !bits[h + 2]
    ensures var w, empty := LengthWords(h), Holds(bits, LengthWords(h), Zeros(16) + Ones(16));
            && (!empty ==> !Closes(bits, h))
            && (empty ==> Closes(bits, h) == (bits[h] || Closes(bits, w + 32)))
            && (empty && w + 32 == |bits| ==> !Closes(bits, w + 32) && !Closes(bits, w))
  {
    var w := LengthWords(h);
    if Holds(bits, w, Zeros(16) + Ones(16)) {
      HoldsBit(bits, w, Zeros(16) + Ones(16), 1);
    }
  }

  /** The first bytes of scratch and input, as many as the window holds. */
  function Window(scratch: seq<byte>, input: seq<byte>): (w: seq<byte>)
    ensures |w| <= 16
  {
    (scratch + input)[..Min(WINDOW, |scratch + input|)]
  }

  /** __check_stream_end up to its verdict: only raw deflate data outside a block with a header is looked at, and then
      the stream ends if and only if the window holds empty blocks with a final one at the end. */
  method CheckStreamEnd(disabled: bool, format: Format, treeBits: nat, scratch: seq<byte>, procBits: nat,
                        input: seq<byte>)
    returns (end: bool)
    requires procBits < 8
    ensures end <==> !disabled && format == Defl && treeBits == 0
                     && EndsWithEmptyBlocks(Of(Window(scratch, input)), procBits)
  {
    if disabled {
      return false;
    }
    if format != Defl {
      return false;
    }
    if treeBits != 0 {
      return false;
    }
    var e := new StreamEnding(scratch, procBits, input);
    ClosesIff(e.All(), e.Pos());
    end := e.Scan();
  }

  /** Data that begin at bit position at of their first byte begin with empty blocks, the last one final. */
  ghost predicate BeginsWithEmptyBlocks(data: seq<bool>, at: nat) {
    exists blocks :: Closing(blocks, at) && RenderBlocks(blocks) <= data
  }

  /** The window behind the skipped bits shows the first unconsumed bits, and all of them if they fit. */
  lemma WindowShowsPending(sb: seq<byte>, ib: nat, input: seq<byte>)
    requires ib < 8 && (ib > 0 ==> |sb| > 0)
    ensures var w, pending := Of(Window(sb, input)), Of(sb)[ib..] + Of(input);
            && ib <= |w| && w[ib..] <= pending && (|sb + input| <= WINDOW ==> w[ib..] == pending)
  {
    OfConcat(sb, input);
    OfTake(sb + input, |Window(sb, input)|);
    hide Of;
    assert (Of(sb) + Of(input))[ib..] == Of(sb)[ib..] + Of(input);
  }

  /** When the bits at which a request stops in its last byte are the bits that the library skips afterwards: the header
      sent and the bits skipped before agree modulo 8, or nothing was processed and nothing is skipped. */
  predicate ScanAligned(a: Answer, headerBits: nat, ib: nat) {
    if a.Pos() == 0 then ib == 0 else Part(headerBits) == ib
  }

  /** The scan starts at the card's bit count for the last byte, which is the first unconsumed bit only then. */
  lemma ScanStart(s: Store, a: Answer, sb: seq<byte>, ib: nat, full: bool)
    requires s.Sensible(a) && ib < 8 && ib <= 8 * |sb| && s.scratch == Of(sb)[ib..]
    ensures Inflate.ScratchAfter(s, a, sb, ib, full).1 == a.procBits <==> ScanAligned(a, |s.header|, ib)
  {
    hide Of, Inflate.KeptBytes;
    if a.Pos() > 0 {
      StartModulo(a.inpProcessed, a.procBits, |s.header|, ib);
    }
  }

  lemma StartModulo(inpProcessed: nat, procBits: nat, headerBits: nat, ib: nat)
    requires procBits < 8 && ib < 8 && headerBits <= 8 * inpProcessed + procBits + ib
    ensures Part(8 * inpProcessed + procBits - headerBits + ib) == procBits <==> Part(headerBits) == ib
  {
    var offs := 8 * inpProcessed + procBits - headerBits + ib;
    assert offs + headerBits == 8 * inpProcessed + procBits + ib;
    if Part(offs) == procBits {
      assert Part(headerBits) - ib == 8 * (inpProcessed - Whole(offs) - Whole(headerBits));
    }
  }

  /** The scan of what a request leaves; sb and ib are the scratch bytes and skipped bits before the request. */
  ghost predicate SeesEnd(s: Store, a: Answer, sb: seq<byte>, ib: nat, full: bool)
    requires s.Sensible(a) && ib <= 8 * |sb| && s.scratch == Of(sb)[ib..]
  {
    EndsWithEmptyBlocks(Of(Window(Inflate.ScratchAfter(s, a, sb, ib, full).0, NextUnread(s, a, full))), a.procBits)
  }

  /** What the verdict should mean: the data not yet consumed begin with empty blocks, the last one final. */
  ghost predicate AtEnd(s: Store, a: Answer, sb: seq<byte>, ib: nat, full: bool)
    requires s.Sensible(a) && ib <= 8 * |sb| && s.scratch == Of(sb)[ib..]
  {
    BeginsWithEmptyBlocks(Next(s, a, full).Pending(), Inflate.ScratchAfter(s, a, sb, ib, full).1)
  }

  /** The scratch bytes after a request show the rest of the stream. */
  lemma ScratchShowsRest(s: Store, a: Answer, sb: seq<byte>, ib: nat, full: bool)
    requires s.Sensible(a) && ib < 8 && ib <= 8 * |sb| && s.scratch == Of(sb)[ib..]
    ensures var (bytes, at) := Inflate.ScratchAfter(s, a, sb, ib, full);
            && at < 8 && (at > 0 ==> |bytes| > 0)
            && Of(bytes)[at..] + Of(NextUnread(s, a, full)) == Next(s, a, full).Pending()
  {
    hide Of, Whole, Inflate.KeptLen, Inflate.DataOffs;
    if a.Pos() > 0 {
      Inflate.ScratchPlanned(s, a, ib, sb, full);
    } else {
      Inflate.JoinBits(sb, s.unread, ib);
    }
  }

  /** When it is aligned, a scan outside a block with a header sees an end only at the end, and always if the data left
      fit in its window. */
  lemma AlignedScan(s: Store, a: Answer, sb: seq<byte>, ib: nat, full: bool)
    requires s.Sensible(a) && ib < 8 && ib <= 8 * |sb| && s.scratch == Of(sb)[ib..]
    requires ScanAligned(a, |s.header|, ib)
    ensures SeesEnd(s, a, sb, ib, full) ==> AtEnd(s, a, sb, ib, full)
    ensures |Inflate.ScratchAfter(s, a, sb, ib, full).0 + NextUnread(s, a, full)| <= 16 ==>
              (AtEnd(s, a, sb, ib, full) ==> SeesEnd(s, a, sb, ib, full))
  {
    hide Of, Window, Closing, RenderBlocks, EndsWithEmptyBlocks, BeginsWithEmptyBlocks, Next, Inflate.ScratchAfter;
    var (bytes, at) := Inflate.ScratchAfter(s, a, sb, ib, full);
    ScanStart(s, a, sb, ib, full);
    ScratchShowsRest(s, a, sb, ib, full);
    ScanMeansEnd(bytes, at, NextUnread(s, a, full));
  }

  /** The window seen from where the unconsumed bits begin. */
  lemma ScanMeansEnd(sb: seq<byte>, at: nat, input: seq<byte>)
    requires at < 8 && (at > 0 ==> |sb| > 0)
    ensures var found := EndsWithEmptyBlocks(Of(Window(sb, input)), at);
            var ends := BeginsWithEmptyBlocks(Of(sb)[at..] + Of(input), at);
            && (found ==> ends) && (|sb + input| <= 16 && ends ==> found)
  {
    hide Of, Window, Closing, RenderBlocks;
    var w, pending := Of(Window(sb, input)), Of(sb)[at..] + Of(input);
    WindowShowsPending(sb, at, input);
    if EndsWithEmptyBlocks(w, at) {
      var blocks :| Closing(blocks, at) && Holds(w, at, RenderBlocks(blocks));
      assert RenderBlocks(blocks) <= w[at..];
      Extends(RenderBlocks(blocks), w[at..], pending);
    }
    if |sb + input| <= WINDOW && BeginsWithEmptyBlocks(pending, at) {
      var blocks :| Closing(blocks, at) && RenderBlocks(blocks) <= pending;
      assert Holds(w, at, RenderBlocks(blocks));
    }
  }

  // ---- scans that are not aligned ----

  /** Sixteen bytes in which only bits p and p + 1 are set: an empty final fixed block at p. */
  function Marked(p: nat): (s: seq<byte>)
    requires p < 8
    ensures |s| == 16
  {
    [[0x03, 0x06, 0x0c, 0x18, 0x30, 0x60, 0xc0, 0x80][p], if p == 7 then 1 else 0] + seq(14, _ => 0)
  }

  lemma MarkedBits(p: nat)
    requires p < 8
    ensures forall k | 0 <= k < 128 :: Of(Marked(p))[k] == (k == p || k == p + 1)
  {
    forall k | 0 <= k < 128
      ensures Of(Marked(p))[k] == (k == p || k == p + 1)
    {
      MarkedByte(p, k / 8, k % 8);
    }
  }

  lemma MarkedByte(p: nat, j: nat, i: nat)
    requires p < 8 && j < 16 && i < 8
    ensures Bit(Marked(p)[j], i) == (8 * j + i == p || 8 * j + i == p + 1)
  {
  }

  lemma MarkedEnds(p: nat)
    requires p < 8
    ensures EndsWithEmptyBlocks(Of(Marked(p)), p)
  {
    MarkedBits(p);
    hide Of, Marked;
    var blocks := [EmptyFixed(true)];
    assert blocks[1..] == [];
    assert RenderBlocks(blocks) == BlockBits(blocks[0]) + RenderBlocks([]);
    assert Closing(blocks, p) && Holds(Of(Marked(p)), p, RenderBlocks(blocks));
  }

  lemma NotPrefix<T>(a: seq<T>, b: seq<T>, i: nat)
    requires i < |a| && (i >= |b| || a[i] != b[i])
    ensures !(a <= b)
  {
  }

  lemma NotBlock(p: nat, at: nat, b: Empty)
    requires p < 8 && at < 8 && p != at
    ensures !(BlockBits(b) <= Of(Marked(p))[at..])
  {
    MarkedBits(p);
    hide Of, Marked;
    var data, bits := Of(Marked(p))[at..], BlockBits(b);
    assert forall k | 0 <= k < |data| :: data[k] == (at + k == p || at + k == p + 1);
    match b {
      case EmptyFixed(f) =>
        NotPrefix(bits, data, if data[1] then 2 else 1);
      case EmptyStored(f, pad) =>
        var n := 3 + |pad| + 16;
        assert bits[n];
        NotPrefix(bits, data, n);
    }
  }

  lemma MarkedGoesOn(p: nat, at: nat)
    requires p < 8 && at < 8 && p != at
    ensures !BeginsWithEmptyBlocks(Of(Marked(p))[at..], at)
  {
    hide Of, Marked, BlockBits;
    forall blocks | Closing(blocks, at)
      ensures !(RenderBlocks(blocks) <= Of(Marked(p))[at..])
    {
      NotBlock(p, at, blocks[0]);
      if RenderBlocks(blocks) <= Of(Marked(p))[at..] {
        Extends(BlockBits(blocks[0]), RenderBlocks(blocks), Of(Marked(p))[at..]);
      }
    }
  }

  /** The status bits of an end of block that is not the final one. */
  lemma EndOfBlock()
    ensures Bit(0x09, 0) && !Bit(0x09, 2) && Bit(0x09, 3)
  {
  }

  /** An end of block at bit pos, counted from the header. */
  function Stop(pos: nat, n: nat): Answer {
    Answer(Whole(pos), Part(pos), 0, 0, n, 0, 0, 0x09)
  }

  lemma StopIsSensible(s: Store, pos: nat)
    requires |s.header| <= pos <= |s.header| + |s.Pending()| && pos > 0
    ensures var a := Stop(pos, |s.header|);
            a.Pos() == pos && s.Sensible(a) && s.StoredHeader(a) && !a.Ends() && NextHeader(s, a) == []
  {
    EndOfBlock();
    hide Bit, Of;
  }

  /** All input is kept when the request stops at bit at of its first byte. */
  lemma KeepsInput(sb: seq<byte>, input: seq<byte>, at: nat)
    requires |sb| == 1 && at < 8 && at <= 8 * |input|
    ensures Inflate.KeptBytes(sb, input, 8 + at, false) == input && Part(8 + at) == at
  {
    Inflate.KeptLenFits(1, |input|, 8 + at, false);
    assert Whole(8 + at) == 1 && Part(8 + at) == at;
    assert Inflate.KeptLen(1, |input|, 8 + at, false) == |input|;
    assert (sb + input)[1..][..|input|] == input;
  }

  /** For every misaligned header length and scratch, and every bit at which the request stops, there is a stream in
      which the scan reports an end although the data go on. */
  lemma MisalignedScan(n: nat, ib: nat, at: nat) returns (s: Store, a: Answer, sb: seq<byte>)
    requires ib < 8 && at < 8 && Part(n) != ib
    ensures |s.header| == n && ib <= 8 * |sb| && s.scratch == Of(sb)[ib..]
    ensures s.Sensible(a) && s.StoredHeader(a) && a.Pos() > 0 && !a.Ends() && NextHeader(s, a) == []
    ensures Inflate.ScratchAfter(s, a, sb, ib, false).1 == at
    ensures SeesEnd(s, a, sb, ib, false) && !AtEnd(s, a, sb, ib, false)
  {
    hide Of, Bit, Whole, Part, Marked, Window, EndsWithEmptyBlocks, BeginsWithEmptyBlocks, Inflate.KeptBytes,
         Store.Sensible, Store.StoredHeader, Next, NextHeader, Answer.Ends;
    var pos := n + 8 - ib + at;
    var p := Part(pos);
    sb := [0];
    s := Store(Zeros(n), Of(sb)[ib..], Marked(p), n);
    a := Stop(pos, n);
    StopIsSensible(s, pos);
    KeepsInput(sb, Marked(p), at);
    ScanStart(s, a, sb, ib, false);
    ScratchShowsRest(s, a, sb, ib, false);
    MarkedEnds(p);
    MarkedGoesOn(p, at);
    WholeWindow(Marked(p));
    AllKept(s, a);
    assert Of(Marked(p))[at..] + Of([]) == Of(Marked(p))[at..];
  }

  lemma WholeWindow(bytes: seq<byte>)
    requires |bytes| == WINDOW
    ensures Window(bytes, []) == bytes
  {
  }

  lemma AllKept(s: Store, a: Answer)
    requires s.Sensible(a)
    ensures NextUnread(s, a, false) == []
  {
    hide Of;
  }

  /** The request was made with n header bits and ib skipped bits, got on, and left no header. */
  ghost predicate Leaves(n: nat, s: Store, a: Answer, sb: seq<byte>, ib: nat) {
    && |s.header| == n && ib <= 8 * |sb| && s.scratch == Of(sb)[ib..]
    && s.Sensible(a) && a.Pos() > 0 && !a.Ends() && NextHeader(s, a) == []
  }

  ghost predicate Truthful(s: Store, a: Answer, sb: seq<byte>, ib: nat, full: bool)
    requires s.Sensible(a) && ib <= 8 * |sb| && s.scratch == Of(sb)[ib..]
  {
    SeesEnd(s, a, sb, ib, full) ==> AtEnd(s, a, sb, ib, full)
  }

  /** The scan after a request can be trusted, whatever the stream, if and only if header bits and skipped bits
      agree. */
  lemma TruthfulIff(n: nat, ib: nat)
    requires ib < 8
    ensures (forall s, a, sb, full | Leaves(n, s, a, sb, ib) :: Truthful(s, a, sb, ib, full)) <==> Part(n) == ib
  {
    hide SeesEnd, AtEnd, NextHeader, Of;
    if Part(n) == ib {
      forall s, a, sb, full | Leaves(n, s, a, sb, ib)
        ensures Truthful(s, a, sb, ib, full)
      {
        AlignedScan(s, a, sb, ib, full);
      }
    } else {
      var s, a, sb := MisalignedScan(n, ib, 0);
      assert Leaves(n, s, a, sb, ib) && !Truthful(s, a, sb, ib, false);
    }
  }

  /** What the scan finds in the area after a request. */
  lemma ScanOfArea(area: Inflate.InflateStream, s: Store, a: Answer, sb: seq<byte>, ib: nat, full: bool)
    requires s.Sensible(a) && ib < 8 && ScanAligned(a, |s.header|, ib)
    requires area.Layout() && area.View() == Next(s, a, full) && area.ScratchIs(s, a, sb, ib, full)
    ensures var found := EndsWithEmptyBlocks(Of(Window(area.ScratchBytes(), area.input)), a.procBits);
            var ends := BeginsWithEmptyBlocks(area.View().Pending(), area.scratchIb);
            && (found ==> ends) && (|area.ScratchBytes() + area.input| <= 16 && ends ==> found)
  {
    hide Of, Window, EndsWithEmptyBlocks, BeginsWithEmptyBlocks, ScanAligned, Store.Sensible, NextScratch, NextUnread,
         NextHeader, Inflate.ScratchAfter, Inflate.InflateStream.Layout;
    area.Shows();
    AlignedScan(s, a, sb, ib, full);
  }

  lemma StopsWithinByte(s: Store, a: Answer)
    requires s.Sensible(a)
    ensures a.procBits < 8
  {
  }

  /** A request and the scan that follows it on raw deflate data that have not ended. */
  method RequestAndScan(area: Inflate.InflateStream, a: Answer, disabled: bool) returns (rc: int, end: bool)
    requires area.Layout() && |area.input| <= 0xffff_ffff - 1023
    requires area.View().Sensible(a) && area.Fits(area.View(), a) && area.View().StoredHeader(a) && !a.Ends()
    modifies area, area.tree
    ensures rc == 0 ==>
              area.Layout() && area.View() == Next(old(area.View()), a, old(area.availOut) <= a.outpReturned)
    ensures rc != 0 || disabled || area.treeBits != 0 ==> !end
    ensures end && ScanAligned(a, old(area.treeBits), old(area.scratchIb)) ==>
              BeginsWithEmptyBlocks(area.View().Pending(), area.scratchIb)
    ensures rc == 0 && !disabled && area.treeBits == 0 && ScanAligned(a, old(area.treeBits), old(area.scratchIb)) ==>
              area.ScratchLen() + |area.input| <= 16 ==>
                BeginsWithEmptyBlocks(area.View().Pending(), area.scratchIb) ==> end
  {
    hide Of, InflateSpec.Next, Store.Sensible, Store.StoredHeader, EndsWithEmptyBlocks, BeginsWithEmptyBlocks,
         ScanAligned, Inflate.InflateStream.ScratchIs, Inflate.InflateStream.Layout, Inflate.InflateStream.View,
         Inflate.InflateStream.Fits, Window;
    area.Shows();
    ghost var v, sb, ib, full := area.View(), area.ScratchBytes(), area.scratchIb, area.availOut <= a.outpReturned;
    StopsWithinByte(v, a);
    rc := area.Request(a);
    end := false;
    if rc != 0 || area.treeBits != 0 {
      return;
    }
    area.Shows();
    NothingInFront(area);
    end := CheckStreamEnd(disabled, Defl, area.treeBits, area.tree[..area.ScratchLen()], area.procBits, area.input);
    if ScanAligned(a, |v.header|, ib) {
      ScanOfArea(area, v, a, sb, ib, full);
    }
  }

  lemma NothingInFront(area: Inflate.InflateStream)
    requires area.Layout() && area.treeBits == 0
    ensures area.ScratchLen() <= area.tree.Length && area.ScratchBytes() == area.tree[..area.ScratchLen()]
  {
    hide Of;
  }
}
