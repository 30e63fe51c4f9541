/** Save and restore of header and scratch data in the shared tree area (lib/inflate.c). */
module Inflate {
  import opened Bits
  import opened Words
  import opened InflateSpec

  const ZEDC_TREE_LEN := 0x200

  /** Bytes of input used up, in the unsigned 64-bit and 32-bit arithmetic of the source. */
  function InpProcUpdate(inpProcessed: nat, procBits: nat, preScratchBits: nat): nat {
    (8 * inpProcessed + procBits - preScratchBits + 7) % 0x1_0000_0000_0000_0000 / 8 % 0x1_0000_0000
  }

  /** Once processing has passed the scratch, it is the input position that scratch_update derives. */
  lemma InputCountAgrees(inpProcessed: nat, procBits: nat, pre: nat, inHdrBits: nat, scratchIb: nat, scratch: nat)
    requires pre == inHdrBits + (8 * scratch - scratchIb) && scratchIb <= 8 * scratch
    requires pre <= 8 * inpProcessed + procBits && 8 * inpProcessed + procBits + 7 - pre < 8 * 0x1_0000_0000
    ensures InpProcUpdate(inpProcessed, procBits, pre) == Whole(8 * inpProcessed + procBits - pre + 7)
    ensures PastInput(scratch, 8 * inpProcessed + procBits - inHdrBits + scratchIb) ==
            InpProcUpdate(inpProcessed, procBits, pre)
  {
  }

  /** 64-bit aligned length in bytes of the area that holds n header bits. */
  function AreaLen(n: nat): (len: nat)
    ensures n <= 8 * len < n + 64 && len % 8 == 0
    ensures n == 0 ==> len == 0
  {
    (n + 63) / 64 * 8
  }

  /** Bytes that must survive: from bit offs to the end of the scratch, or only a byte that was cut,
      and all input when the output buffer was not filled. */
  function KeptLen(scratch: nat, input: nat, offs: nat, full: bool): nat
    requires offs <= 8 * (scratch + input)
  {
    if full then BaseLen(scratch, offs) else BaseLen(scratch, offs) + input - PastInput(scratch, offs)
  }

  function BaseLen(scratch: nat, offs: nat): nat {
    if Whole(offs) >= scratch then (if Part(offs) != 0 then 1 else 0) else scratch - Whole(offs)
  }

  lemma KeptLenFits(scratch: nat, input: nat, offs: nat, full: bool)
    requires offs <= 8 * (scratch + input)
    ensures Part(offs) <= 8 * KeptLen(scratch, input, offs, full)
            && Whole(offs) + KeptLen(scratch, input, offs, full) <= scratch + input
  {
  }

  /** The bytes that survive. */
  function KeptBytes(sb: seq<byte>, input: seq<byte>, offs: nat, full: bool): seq<byte>
    requires offs <= 8 * (|sb| + |input|)
  {
    KeptLenFits(|sb|, |input|, offs, full);
    (sb + input)[Whole(offs)..][..KeptLen(|sb|, |input|, offs, full)]
  }

  /** The scratch bytes after an answer, and the number of bits to skip in them; before it they were sb and ib. */
  function ScratchAfter(v: Store, a: Answer, sb: seq<byte>, ib: nat, full: bool): (seq<byte>, nat)
    requires v.Sensible(a) && ib <= 8 * |sb| && v.scratch == Of(sb)[ib..]
  {
    if a.Pos() == 0 then (sb + v.unread, ib)
    else
      (KeptBytes(sb, v.unread, a.Pos() - |v.header| + ib, full), Part(a.Pos() - |v.header| + ib))
  }

  function PastInput(scratch: nat, offs: nat): nat {
    if Whole(offs) >= scratch then Whole(offs) - scratch + BaseLen(scratch, offs) else 0
  }

  function DataOffs(scratch: nat, input: nat, offs: nat, full: bool): nat {
    if full then PastInput(scratch, offs) else input
  }

  lemma JoinBits(sb: seq<byte>, input: seq<byte>, ib: nat)
    requires ib <= 8 * |sb|
    ensures Of(sb)[ib..] + Of(input) == Of(sb + input)[ib..]
  {
    OfConcat(sb, input);
  }

  /** n bytes from byte offs / 8 on carry the bits from offs on. */
  lemma BytesCarryBits(d: seq<byte>, offs: nat, n: nat)
    requires offs <= 8 * |d| && Whole(offs) + n <= |d| && Part(offs) <= 8 * n
    ensures Of(d[Whole(offs)..][..n])[Part(offs)..] == Of(d)[offs..][..8 * n - Part(offs)]
  {
    hide Bit, Of, Whole, Part;
    OfDrop(d, Whole(offs));
    OfTake(d[Whole(offs)..], n);
    assert Of(d)[8 * Whole(offs)..][Part(offs)..] == Of(d)[offs..];
  }

  lemma HeaderCarried(sb: seq<byte>, input: seq<byte>, ib: nat, offs: nat, bits: nat, n: nat)
    requires ib <= 8 * |sb| && ib <= offs && offs + bits <= 8 * |sb + input|
    requires n == Whole(bits + Part(offs) + 7)
    ensures Whole(offs) + n <= |sb + input| && Part(offs) + bits <= 8 * n
    ensures Of((sb + input)[Whole(offs)..][..n])[Part(offs)..][..bits] ==
            (Of(sb)[ib..] + Of(input))[offs - ib..][..bits]
  {
    hide Bit, Of, Whole, Part;
    JoinBits(sb, input, ib);
    BytesCarryBits(sb + input, offs, n);
    assert Of(sb + input)[ib..][offs - ib..] == Of(sb + input)[offs..];
  }

  lemma HeaderRead(all: seq<byte>, len: nat, n: nat, ib: nat, bits: nat)
    requires n <= len <= |all| && ib + bits <= 8 * n
    ensures Of(all[..len])[ib..][..bits] == Of(all[..n])[ib..][..bits]
  {
    OfTake(all, n);
    OfTake(all, len);
    hide Bit, Of;
  }

  /** Bytes that hold a header of the given length at bit offset offs. */
  function HdrLen(offs: nat, bits: nat): (n: nat)
    ensures Part(offs) + bits <= 8 * n
  {
    Whole(bits + Part(offs) + 7)
  }

  /** Where a reported header lies in scratch and input, and its bits; the position reached is offs. */
  ghost predicate HeaderPlan(sb: seq<byte>, input: seq<byte>, ho: nat, bits: nat, first: bool, offs: nat,
                             header: seq<bool>) {
    && Whole(ho) + HdrLen(ho, bits) <= |sb + input|
    && HdrLen(ho, bits) <= AreaLen(bits + Part(ho)) <= ZEDC_TREE_LEN
    && (if first then Whole(ho) == 0 else Whole(ho) + HdrLen(ho, bits) >= |sb|)
    && Whole(ho + bits) <= Whole(offs)
    && header == Of((sb + input)[Whole(ho)..][..HdrLen(ho, bits)])[Part(ho)..][..bits]
  }

  /** The card's contract gives such a plan for every new header. */
  lemma NewHeaderPlanned(v: Store, a: Answer, ib: nat, sb: seq<byte>)
    requires v.Sensible(a) && v.NewHeader(a) && ib < 8 && ib <= 8 * |sb| && v.scratch == Of(sb)[ib..]
    requires AreaLen(|v.HeaderAfter(a)| + Part(a.HdrPos() - |v.header| + ib)) <= ZEDC_TREE_LEN
    ensures var ho := a.HdrPos() - |v.header| + ib;
            && ho >= 0 && v.HdrBits(a) == a.outHdrBits && a.HdrPos() >= |v.header|
            && HeaderPlan(sb, v.unread, ho, a.outHdrBits, a.HdrPos() == 0 && v.header == [],
                          a.Pos() - |v.header| + ib, v.HeaderAfter(a))
  {
    hide Bit, Of, Whole, Part;
    HeaderCarried(sb, v.unread, ib, a.HdrPos() - |v.header| + ib, a.outHdrBits,
                  HdrLen(a.HdrPos() - |v.header| + ib, a.outHdrBits));

  }

  /** Which bytes of scratch and input are kept, and what they and the rest of the input mean. */
  ghost predicate ScratchPlan(sb: seq<byte>, input: seq<byte>, offs: nat, full: bool, scratch: seq<bool>,
                              unread: seq<byte>) {
    && offs <= 8 * |sb + input|
    && Whole(offs) + KeptLen(|sb|, |input|, offs, full) <= |sb + input|
    && Part(offs) <= 8 * KeptLen(|sb|, |input|, offs, full)
    && DataOffs(|sb|, |input|, offs, full) <= |input|
    && scratch == Of((sb + input)[Whole(offs)..][..KeptLen(|sb|, |input|, offs, full)])[Part(offs)..]
    && unread == input[DataOffs(|sb|, |input|, offs, full)..]
  }

  lemma ScratchPlanned(v: Store, a: Answer, ib: nat, sb: seq<byte>, full: bool)
    requires v.Sensible(a) && a.Pos() > 0 && ib <= 8 * |sb| && v.scratch == Of(sb)[ib..]
    ensures ScratchPlan(sb, v.unread, a.Pos() - |v.header| + ib, full, NextScratch(v, a, full), NextUnread(v, a, full))
  {
    hide Bit, Of, KeptLen, DataOffs, Whole, Part, Store.HdrBits, Store.NewHeader;
    ScratchCarried(sb, v.unread, ib, a.Pos() - |v.header| + ib, full);
    assert Rest(v, a) == (Of(sb)[ib..] + Of(v.unread))[a.Pos() - |v.header|..];
  }

  /** The kept bytes and the input position split the rest of the stream as the specification does. */
  lemma ScratchCarried(sb: seq<byte>, input: seq<byte>, ib: nat, offs: nat, full: bool)
    requires ib <= 8 * |sb| && ib <= offs <= 8 * |sb + input|
    ensures var kept, rest := KeptLen(|sb|, |input|, offs, full), (Of(sb)[ib..] + Of(input))[offs - ib..];
            var left := if full then Min(|input|, Whole(|rest|)) else 0;
            && Whole(offs) + kept <= |sb + input| && Part(offs) <= 8 * kept
            && DataOffs(|sb|, |input|, offs, full) == |input| - left
            && Of((sb + input)[Whole(offs)..][..kept])[Part(offs)..] == rest[..|rest| - 8 * left]
  {
    hide Bit, Of, Whole, Part;
    var kept := KeptLen(|sb|, |input|, offs, full);
    JoinBits(sb, input, ib);
    BytesCarryBits(sb + input, offs, kept);
    assert Of(sb + input)[ib..][offs - ib..] == Of(sb + input)[offs..];
  }

  /** Padding behind the header, up to a multiple of 64 bits. */
  function PadBits(ib: nat, bits: nat): nat {
    if bits > 0 then (64 - (ib + bits) % 64) % 64 else 0
  }

  lemma PadExact(ib: nat, bits: nat)
    requires bits > 0
    ensures ib + bits + PadBits(ib, bits) == 8 * AreaLen(bits + ib)
  {
  }

  /** Behind a header that reaches the last scratch byte at most that byte is still needed. */
  lemma KeepsLastByte(ho: nat, bits: nat, scratch: nat, offs: nat)
    requires Whole(ho) + HdrLen(ho, bits) >= scratch && Whole(ho + bits) <= Whole(offs)
    ensures Whole(offs) + 1 >= scratch
    ensures Whole(offs) < scratch ==> Whole(ho) + HdrLen(ho, bits) == scratch
  {
  }

  class InflateStream {
    const tree: array<byte>
    // request fields
    var inHdrScratchLen: nat
    var inHdrBits: nat
    var preScratchBits: nat
    // layout of the area
    var hdrIb: nat
    var treeBits: nat
    var padBits: nat
    var scratchIb: nat
    var scratchBits: nat
    // answer fields
    var inpProcessed: nat
    var procBits: nat
    var outpReturned: nat
    var hdrStart: nat
    var outHdrStartBits: nat
    var outHdrBits: nat
    var copyblockLen: bv16
    var inflStat: byte
    // book-keeping
    var inpDataOffs: nat
    var inDataUsed: nat
    var eobSeen: bool
    var input: seq<byte>     // the avail_in bytes at next_in
    var availOut: nat

    constructor ()
      ensures Layout() && View() == Store([], [], [], 0) && !eobSeen && fresh(tree)
    {
      tree := new byte[ZEDC_TREE_LEN];
      input := [];
      new;
      InitState();
    }

    method ClearAnswer()
      modifies this`inpProcessed, this`outpReturned, this`procBits, this`inflStat, this`hdrStart, this`outHdrBits,
               this`outHdrStartBits, this`copyblockLen
      ensures outHdrBits == 0
    {
      inpProcessed, outpReturned, procBits, inflStat, hdrStart := 0, 0, 0, 0, 0;
      outHdrBits, outHdrStartBits, copyblockLen := 0, 0, 0;
    }

    /** __inflateInit_state: whatever was kept is gone. */
    method InitState()
      requires tree.Length == ZEDC_TREE_LEN
      modifies this
      ensures Layout() && View() == Store([], [], input, 0) && !eobSeen
      ensures input == old(input) && availOut == old(availOut)
    {
      hide InflateStream.Layout, InflateStream.View;
      ClearAnswer();
      eobSeen := false;
      inHdrScratchLen, inHdrBits, preScratchBits, inpDataOffs, inDataUsed := 0, 0, 0, 0, 0;
      hdrIb, scratchIb, scratchBits, treeBits, padBits := 0, 0, 0, 0, 0;
      NothingKept();
    }

    lemma NothingKept()
      requires tree.Length == ZEDC_TREE_LEN
      requires treeBits == 0 && hdrIb == 0 && padBits == 0 && scratchIb == 0 && scratchBits == 0
      ensures Layout() && View() == Store([], [], input, outHdrBits)
    {
      hide Of, AreaLen;
      assert HeaderBits() == [];
      assert Of(ScratchBytes())[scratchIb..] == [];
    }

    function ScratchLen(): nat
      reads this`scratchIb, this`scratchBits
    {
      Whole(scratchIb + scratchBits)
    }

    /** The request sent ended with the scratch bytes sb. */
    ghost predicate Holds(sb: seq<byte>)
      reads this`inHdrScratchLen
    {
      tree.Length == ZEDC_TREE_LEN && |sb| <= inHdrScratchLen <= ZEDC_TREE_LEN
    }

    /** The scratch fields still describe them. */
    ghost predicate Requested(sb: seq<byte>)
      reads this`scratchIb, this`scratchBits, this`inHdrScratchLen, this`inHdrBits
    {
      && Holds(sb)
      && scratchIb < 8 && scratchIb + scratchBits == 8 * |sb|
      && (inHdrBits == 0 ==> inHdrScratchLen == |sb|)
    }

    /** From byte from on the old scratch data is still in place. */
    ghost predicate ScratchKept(sb: seq<byte>, from: nat)
      requires Holds(sb)
      reads this`inHdrScratchLen, tree
    {
      forall k | from <= k < |sb| :: tree[inHdrScratchLen - |sb| + k] == sb[k]
    }

    method MemMove(dst: nat, src: nat, n: nat)
      requires dst + n <= tree.Length && src + n <= tree.Length
      modifies tree
      ensures tree[dst..dst + n] == old(tree[src..src + n])
      ensures forall k | 0 <= k < tree.Length && !(dst <= k < dst + n) :: tree[k] == old(tree[k])
    {
      forall k | 0 <= k < n {
        tree[dst + k] := tree[src + k];
      }
    }

    method CopyInput(dst: nat, offs: nat, n: nat)
      requires dst + n <= tree.Length && offs + n <= |input|
      modifies tree
      ensures tree[dst..dst + n] == input[offs..offs + n]
      ensures forall k | 0 <= k < tree.Length && !(dst <= k < dst + n) :: tree[k] == old(tree[k])
    {
      forall k | 0 <= k < n {
        tree[dst + k] := input[offs + k];
      }
    }

    /** The copy block that the source contains twice: cnt bytes of scratch and input, from srcOffs relative to the
        start of the input, go to target. */
    method CopyKept(ghost sb: seq<byte>, target: nat, srcOffs: int, cnt: nat)
      requires Holds(sb)
      requires cnt > 0 && srcOffs < 0 ==> cnt + srcOffs >= 0 && |sb| + srcOffs >= 0 && ScratchKept(sb, |sb| + srcOffs)
      requires cnt > 0 ==> srcOffs + cnt <= |input| && target + cnt <= ZEDC_TREE_LEN
      modifies tree
      ensures cnt > 0 ==> tree[target..target + cnt] == (sb + input)[|sb| + srcOffs..][..cnt]
      ensures forall k | 0 <= k < tree.Length && !(target <= k < target + cnt) :: tree[k] == old(tree[k])
    {
      if cnt > 0 && srcOffs < 0 {
        ghost var src := inHdrScratchLen + srcOffs;
        assert tree[src..src - srcOffs] == sb[|sb| + srcOffs..];
        KeptSlice(sb, input, -srcOffs, cnt);
        CopyBoth(target, inHdrScratchLen + srcOffs, -srcOffs, cnt);
      } else if cnt > 0 {
        assert (sb + input)[|sb| + srcOffs..] == input[srcOffs..];
        CopyInput(target, srcOffs, cnt);
      }
    }

    /** The last bytes of the scratch, then bytes from the start of the input. */
    method CopyBoth(target: nat, src: nat, last: nat, cnt: nat)
      requires last <= cnt <= last + |input| && target + cnt <= tree.Length && src + last <= tree.Length
      modifies tree
      ensures tree[target..target + cnt] == old(tree[src..src + last]) + input[..cnt - last]
      ensures forall k | 0 <= k < tree.Length && !(target <= k < target + cnt) :: tree[k] == old(tree[k])
    {
      MemMove(target, src, last);
      ghost var moved := tree[target..target + last];
      if cnt > last {
        CopyInput(target + last, 0, cnt - last);
      }
      assert tree[target..target + last] == moved;
      assert tree[target..target + cnt] == tree[target..target + last] + tree[target + last..target + cnt];
    }

    static lemma KeptSlice(sb: seq<byte>, input: seq<byte>, last: nat, cnt: nat)
      requires last <= |sb| && last <= cnt <= last + |input|
      ensures (sb + input)[|sb| - last..][..cnt] == sb[|sb| - last..] + input[..cnt - last]
    {
    }

    /** Bit offset of the reported header behind the scratch start. */
    ghost function HdrOffs(): int
      reads this
    {
      8 * hdrStart + outHdrStartBits - inHdrBits + scratchIb
    }

    ghost predicate FirstHeader()
      reads this
    {
      8 * hdrStart + outHdrStartBits == 0 && inHdrBits == 0
    }

    /** The byte moves of ExtractNewTree: the header takes n bytes from byte start, and ends in byte end. */
    method CopyHeader(ghost sb: seq<byte>, start: nat, n: nat, ghost end: nat)
      requires Requested(sb) && ScratchKept(sb, 0)
      requires start + n <= |sb| + |input| && n <= ZEDC_TREE_LEN
      requires FirstHeader() ==> start == 0
      requires !FirstHeader() ==> start + n >= |sb| && end + 1 >= |sb| && (end < |sb| ==> start + n == |sb|)
      modifies tree
      ensures tree[..n] == (sb + input)[start..][..n]
      ensures ScratchKept(sb, end)
    {
      var inScratchBytes := Whole(scratchBits + scratchIb);
      var cnt := n;
      var target := 0;
      var srcOffs := start - inScratchBytes;
      if 8 * hdrStart + outHdrStartBits == 0 && inHdrBits == 0 {
        if cnt > inScratchBytes {
          cnt := cnt - inScratchBytes;
          target := target + inScratchBytes;
          srcOffs := srcOffs + inScratchBytes;
        } else {
          cnt := 0;
        }
      }
      ghost var before, first := tree[..], FirstHeader();
      CopyKept(sb, target, srcOffs, cnt);
      if first {
        assert tree[..|sb|] == before[..|sb|] == sb;
        if n > |sb| {
          assert tree[|sb|..n] == input[..n - |sb|];
          assert tree[..n] == tree[..|sb|] + tree[|sb|..n];
        } else {
          assert tree[..n] == sb[..n];
        }
      }
    }

    /** Length in bytes of the header part of the area. */
    ghost function Area(): nat
      reads this`treeBits, this`hdrIb
    {
      AreaLen(treeBits + hdrIb)
    }

    ghost function HeaderBits(): seq<bool>
      requires Area() <= tree.Length
      reads this`treeBits, this`hdrIb, tree
    {
      Of(tree[..Area()])[hdrIb..][..treeBits]
    }

    /** The bytes that hold the reported header come to the front of the area, which is padded to 64 bits. */
    method ExtractNewTree(ghost sb: seq<byte>, ghost offs: nat, ghost header: seq<bool>)
      requires Requested(sb) && ScratchKept(sb, 0) && HdrOffs() >= 0 && outHdrBits > 0
      requires HeaderPlan(sb, input, HdrOffs(), outHdrBits, FirstHeader(), offs, header)
      modifies tree, this`hdrIb, this`treeBits, this`padBits
      ensures hdrIb == Part(HdrOffs()) && treeBits == outHdrBits && padBits == PadBits(hdrIb, treeBits)
      ensures tree[..HdrLen(HdrOffs(), treeBits)] == (sb + input)[Whole(HdrOffs())..][..HdrLen(HdrOffs(), treeBits)]
      ensures ScratchKept(sb, Whole(offs))
    {
      hide Bit, Of, Whole, Part, AreaLen, PadBits;
      var hdrOffs: nat := 8 * hdrStart + outHdrStartBits - inHdrBits + scratchIb;
      hdrIb := Part(hdrOffs);
      if !FirstHeader() {
        KeepsLastByte(hdrOffs, outHdrBits, |sb|, offs);
      }
      treeBits := outHdrBits;
      padBits := PadBits(hdrIb, treeBits);
      CopyHeader(sb, Whole(hdrOffs), Whole(outHdrBits + hdrIb + 7), Whole(offs));
    }

    /** Read as bits, they are the reported header. */
    lemma HeaderInPlace(sb: seq<byte>, ho: nat, first: bool, offs: nat, header: seq<bool>)
      requires tree.Length == ZEDC_TREE_LEN && treeBits > 0
      requires hdrIb == Part(ho) && padBits == PadBits(hdrIb, treeBits)
      requires HeaderPlan(sb, input, ho, treeBits, first, offs, header)
      requires tree[..HdrLen(ho, treeBits)] == (sb + input)[Whole(ho)..][..HdrLen(ho, treeBits)]
      ensures HeaderLayout() && Area() <= tree.Length && HeaderBits() == header
    {
      PadExact(hdrIb, treeBits);
      HeaderRead(tree[..], Area(), HdrLen(ho, treeBits), hdrIb, treeBits);
      hide Bit, Of, Whole, Part, AreaLen, PadBits, HdrLen;
    }

    ghost function ScratchBytes(): seq<byte>
      requires Area() + ScratchLen() <= tree.Length
      reads this`treeBits, this`hdrIb, this`scratchIb, this`scratchBits, tree
    {
      tree[Area()..Area() + ScratchLen()]
    }

    /** Source position and number of the bytes to keep, and the input position behind them. */
    method ScratchCounts(ghost scratch: nat, scratchOffs: nat) returns (srcOffs: int, cnt: nat)
      requires scratchIb + scratchBits == 8 * scratch && scratchOffs <= 8 * (scratch + |input|)
      modifies this`inpDataOffs
      ensures srcOffs == Whole(scratchOffs) - scratch
      ensures cnt == KeptLen(scratch, |input|, scratchOffs, availOut <= outpReturned)
      ensures inpDataOffs == DataOffs(scratch, |input|, scratchOffs, availOut <= outpReturned)
      ensures cnt > 0 ==> cnt + srcOffs >= 0 && srcOffs + cnt <= |input|
    {
      var inScratchBytes := Whole(scratchBits + scratchIb);
      srcOffs := Whole(scratchOffs) - inScratchBytes;
      if srcOffs >= 0 {
        cnt := if Part(scratchOffs) != 0 then 1 else 0;
        inpDataOffs := srcOffs + cnt;
      } else {
        inpDataOffs := 0;
        cnt := inScratchBytes - Whole(scratchOffs);
      }
      if availOut > outpReturned {
        cnt := cnt + |input| - inpDataOffs;
        inpDataOffs := |input|;
      }
    }

    lemma TargetIsArea()
      ensures (treeBits + hdrIb + 63) / 64 * 8 == Area()
    {
    }

    /** Moves what must be kept behind the header; offs is the bit position reached, from the scratch start. */
    method ScratchUpdate(ghost sb: seq<byte>, ghost offs: nat)
      requires Requested(sb) && ScratchKept(sb, Whole(offs)) && offs <= 8 * (|sb| + |input|)
      requires offs == 8 * inpProcessed + procBits - inHdrBits + scratchIb
      requires Area() + KeptLen(|sb|, |input|, offs, availOut <= outpReturned) <= ZEDC_TREE_LEN
      modifies tree, this`scratchIb, this`scratchBits, this`inpDataOffs
      ensures var kept := KeptLen(|sb|, |input|, offs, availOut <= outpReturned);
              && scratchIb == Part(offs) && scratchIb + scratchBits == 8 * kept && kept <= |sb| + |input| - Whole(offs)
              && tree[Area()..Area() + kept] == (sb + input)[Whole(offs)..][..kept]
      ensures inpDataOffs == DataOffs(|sb|, |input|, offs, availOut <= outpReturned)
      ensures tree[..Area()] == old(tree[..Area()])
    {
      hide Of, DataOffs, KeptLen, AreaLen, Whole, Part;
      var scratchOffs: nat := 8 * inpProcessed + procBits - inHdrBits + scratchIb;
      var target := (treeBits + hdrIb + 63) / 64 * 8;
      TargetIsArea();
      KeptLenFits(|sb|, |input|, scratchOffs, availOut <= outpReturned);
      var srcOffs, cnt := ScratchCounts(|sb|, scratchOffs);
      scratchBits := cnt * 8 - Part(scratchOffs);
      scratchIb := Part(scratchOffs);
      CopyKept(sb, target, srcOffs, cnt);
    }

    /** The scratch consists of these bytes, of which the first bits are skipped. */
    ghost predicate Scratched(bytes: seq<byte>, ib: nat)
      reads this`scratchIb, this`scratchBits, this`treeBits, this`hdrIb, tree
    {
      Area() + ScratchLen() <= tree.Length && ScratchBytes() == bytes && scratchIb == ib
    }

    /** Read as bits, the kept bytes and the unread input are what the plan says. */
    lemma ScratchInPlace(sb: seq<byte>, offs: nat, full: bool, scratch: seq<bool>, unread: seq<byte>)
      requires ScratchPlan(sb, input, offs, full, scratch, unread)
      requires var kept := KeptLen(|sb|, |input|, offs, full);
               && scratchIb == Part(offs) && scratchIb + scratchBits == 8 * kept
               && Area() + kept <= tree.Length
               && tree[Area()..Area() + kept] == (sb + input)[Whole(offs)..][..kept]
      requires inpDataOffs == DataOffs(|sb|, |input|, offs, full)
      ensures scratchIb + scratchBits == 8 * ScratchLen() && Area() + ScratchLen() <= tree.Length
      ensures inpDataOffs <= |input| && input[inpDataOffs..] == unread
      ensures Of(ScratchBytes())[scratchIb..] == scratch
      ensures offs <= 8 * (|sb| + |input|) && Scratched(KeptBytes(sb, input, offs, full), Part(offs))
    {
      hide Bit, Of, KeptLen, DataOffs, Part, AreaLen;
    }

    /** The layout of the area before a request: the header padded to 64 bits, then the scratch, both whole bytes. */
    ghost predicate Layout()
      reads this`scratchIb, this`scratchBits, this`treeBits, this`hdrIb, this`padBits
    {
      && tree.Length == ZEDC_TREE_LEN
      && scratchIb < 8 && scratchIb + scratchBits == 8 * ScratchLen()
      && HeaderLayout()
      && Area() + ScratchLen() <= ZEDC_TREE_LEN
    }

    ghost predicate HeaderLayout()
      reads this`treeBits, this`hdrIb, this`padBits
    {
      && hdrIb < 8 && (treeBits == 0 ==> hdrIb == 0)
      && hdrIb + treeBits + padBits == 8 * Area()
    }

    /** The area shows this header and scratch, and this part of the input is left. */
    ghost predicate Kept(header: seq<bool>, scratch: seq<bool>, unread: seq<byte>)
      reads this`scratchIb, this`scratchBits, this`treeBits, this`hdrIb, this`padBits, this`inpDataOffs, this`input,
            tree
    {
      && Layout() && HeaderBits() == header
      && Of(ScratchBytes())[scratchIb..] == scratch
      && inpDataOffs <= |input| && input[inpDataOffs..] == unread
    }

    /** The area as bit strings. */
    ghost function View(): Store
      requires Layout()
      reads this`scratchIb, this`scratchBits, this`treeBits, this`hdrIb, this`padBits, this`input, this`outHdrBits, tree
    {
      Store(HeaderBits(), Of(ScratchBytes())[scratchIb..], input, outHdrBits)
    }

    /** What the card keeps to so that the header and scratch after its answer fit in the area. */
    ghost predicate Fits(v: Store, a: Answer)
      requires v.Sensible(a)
      reads this`scratchIb, this`scratchBits, this`input, this`availOut, this`hdrIb
    {
      a.Pos() > 0 && !a.Ends() ==>
        && a.Pos() - |v.header| + scratchIb <= 8 * (ScratchLen() + |input|)
        && AreaLen(|v.HeaderAfter(a)| + NewIb(v, a))
           + KeptLen(ScratchLen(), |input|, a.Pos() - |v.header| + scratchIb, availOut <= a.outpReturned)
           <= ZEDC_TREE_LEN
    }

    ghost function NewIb(v: Store, a: Answer): nat
      requires v.Sensible(a)
      reads this`scratchIb, this`hdrIb
    {
      if v.NewHeader(a) then Part(a.HdrPos() - |v.header| + scratchIb) else if a.PassedEob() then 0 else hdrIb
    }

    lemma Shows()
      requires Layout()
      ensures View() == Store(HeaderBits(), Of(ScratchBytes())[scratchIb..], input, outHdrBits)
      ensures |View().header| == treeBits && |View().scratch| == scratchBits
      ensures HeaderLayout() && Area() + ScratchLen() <= tree.Length == ZEDC_TREE_LEN
              && |ScratchBytes()| == ScratchLen()
      ensures hdrIb + treeBits + padBits == 8 * Area()
      ensures scratchIb < 8 && scratchIb + scratchBits == 8 * ScratchLen()
    {
      hide Of, AreaLen, Whole;
    }

    method SetInflateAsiv()
      requires Layout()
      modifies this`inHdrScratchLen, this`preScratchBits, this`inHdrBits
      ensures 8 * inHdrScratchLen == hdrIb + treeBits + padBits + scratchIb + scratchBits
      ensures inHdrScratchLen <= ZEDC_TREE_LEN
      ensures inHdrBits == treeBits && preScratchBits == treeBits + scratchBits
      ensures Requested(ScratchBytes()) && ScratchKept(ScratchBytes(), 0)
    {
      var len := hdrIb + treeBits + padBits + scratchIb + scratchBits;
      inHdrScratchLen := Whole(len);
      preScratchBits := treeBits + scratchBits;
      inHdrBits := treeBits;
    }

    /** Copies the answer; header fields only when the card processed something. */
    method GetInflateAsv(a: Answer)
      modifies this`outHdrBits, this`hdrStart, this`outHdrStartBits, this`copyblockLen, this`outpReturned,
               this`inpProcessed, this`procBits, this`inflStat
      ensures inpProcessed == a.inpProcessed && procBits == a.procBits && outpReturned == a.outpReturned
      ensures copyblockLen == a.copyblockLen && inflStat == a.stat
      ensures if a.Pos() > 0 then outHdrBits == a.outHdrBits && hdrStart == a.hdrStart
                                  && outHdrStartBits == a.hdrStartBits
              else outHdrBits == old(outHdrBits)
    {
      if a.inpProcessed != 0 || a.procBits != 0 {
        outHdrBits := a.outHdrBits;
        hdrStart := a.hdrStart;
        outHdrStartBits := a.hdrStartBits;
      }
      copyblockLen := a.copyblockLen;
      outpReturned := a.outpReturned;
      inpProcessed := a.inpProcessed;
      procBits := a.procBits;
      inflStat := a.stat;
    }

    /** The area still shows what it showed when the request was sent. */
    ghost predicate Answered(v: Store, a: Answer, sb: seq<byte>)
      reads this, tree
    {
      && Layout() && Requested(sb) && ScratchKept(sb, 0) && sb == ScratchBytes()
      && v.header == HeaderBits() && v.scratch == Of(sb)[scratchIb..] && v.unread == input
      && inHdrBits == |v.header| && preScratchBits == |v.header| + |v.scratch|
      && inpProcessed == a.inpProcessed && procBits == a.procBits && outpReturned == a.outpReturned
      && inflStat == a.stat && copyblockLen == a.copyblockLen
      && (if a.Pos() > 0 then outHdrBits == a.outHdrBits && hdrStart == a.hdrStart && outHdrStartBits == a.hdrStartBits
          else outHdrBits == v.hdrBits)
      && v.Sensible(a) && Fits(v, a)
    }

    /** A header is reported that is not the one already at the front of the area. */
    predicate SeesNewHeader()
      reads this`outHdrBits, this`hdrStart, this`outHdrStartBits, this`inHdrBits
    {
      outHdrBits > 0 && (8 * hdrStart + outHdrStartBits > 0 || inHdrBits == 0)
    }

    /** Replaces the header when a new one was found; offs is the position reached. */
    method FindHeader(ghost sb: seq<byte>, ghost offs: nat, ghost header: seq<bool>)
      requires Requested(sb) && ScratchKept(sb, 0)
      requires SeesNewHeader() ==>
                 HdrOffs() >= 0 && HeaderPlan(sb, input, HdrOffs(), outHdrBits, FirstHeader(), offs, header)
      requires !SeesNewHeader() ==> HeaderLayout() && Area() <= tree.Length && HeaderBits() == header
      modifies tree, this`treeBits, this`padBits, this`hdrIb
      ensures ScratchKept(sb, Whole(offs))
      ensures HeaderLayout() && Area() <= tree.Length && HeaderBits() == header
      ensures SeesNewHeader() ==> hdrIb == Part(HdrOffs()) && treeBits == outHdrBits
      ensures !SeesNewHeader() ==> hdrIb == old(hdrIb) && treeBits == old(treeBits)
    {
      hide Bit, Of, Whole, Part, AreaLen, HeaderPlan, PadBits, HdrLen;
      if SeesNewHeader() {
        ghost var ho, first := HdrOffs(), FirstHeader();
        treeBits := outHdrBits;
        ExtractNewTree(sb, offs, header);
        HeaderInPlace(sb, ho, first, offs, header);
      }
    }

    /** End of block makes the header obsolete; true when it was the last block. */
    method DropHeader() returns (final: bool)
      modifies this`treeBits, this`padBits, this`hdrIb, this`outHdrBits, this`outHdrStartBits, this`inpDataOffs,
               this`scratchBits, this`eobSeen
      ensures final <==> Bit(inflStat, 0) && Bit(inflStat, 2)
      ensures outHdrBits == if Bit(inflStat, 0) && Bit(inflStat, 3) then 0 else old(outHdrBits)
      ensures outHdrBits > 0 ==> outHdrStartBits == old(outHdrStartBits)
      ensures if Bit(inflStat, 0) then treeBits == padBits == hdrIb == 0
              else treeBits == old(treeBits) && padBits == old(padBits) && hdrIb == old(hdrIb)
      ensures final ==> eobSeen && inpDataOffs == inDataUsed
      ensures !final ==> eobSeen == old(eobSeen) && scratchBits == old(scratchBits)
    {
      hide Bit;
      if Bit(inflStat, 0) {
        treeBits, padBits, hdrIb := 0, 0, 0;
        if Bit(inflStat, 3) {
          outHdrBits := 0;
          outHdrStartBits := 0;
        }
        if Bit(inflStat, 2) {
          inpDataOffs := inDataUsed;
          scratchBits := 0;
          eobSeen := true;
          return true;
        }
      }
      return false;
    }

    /** The header to be in force next can be found where it is reported, or is in place. */
    ghost predicate HeaderReady(sb: seq<byte>, offs: nat, ib: nat, header: seq<bool>)
      reads this, tree
    {
      if SeesNewHeader() then
        && HdrOffs() >= 0 && HeaderPlan(sb, input, HdrOffs(), outHdrBits, FirstHeader(), offs, header)
        && ib == Part(HdrOffs()) && |header| == outHdrBits
      else
        && HeaderLayout() && Area() <= tree.Length && HeaderBits() == header && ib == hdrIb && |header| == treeBits
    }

    /** Header first, then the data behind it; ib is the bit offset of the header in force afterwards. */
    method KeepRest(ghost sb: seq<byte>, ghost offs: nat, ghost ib: nat, ghost header: seq<bool>,
                    ghost scratch: seq<bool>, ghost unread: seq<byte>)
      requires Requested(sb) && ScratchKept(sb, 0)
      requires offs == 8 * inpProcessed + procBits - inHdrBits + scratchIb
      requires HeaderReady(sb, offs, ib, header)
      requires ScratchPlan(sb, input, offs, availOut <= outpReturned, scratch, unread)
      requires AreaLen(|header| + ib) + KeptLen(|sb|, |input|, offs, availOut <= outpReturned) <= ZEDC_TREE_LEN
      modifies tree, this`treeBits, this`padBits, this`hdrIb, this`inpDataOffs, this`scratchBits, this`scratchIb
      ensures Kept(header, scratch, unread)
      ensures offs <= 8 * (|sb| + |input|)
              && Scratched(KeptBytes(sb, input, offs, availOut <= outpReturned), Part(offs))
    {
      hide Bit, Of, Whole, Part, AreaLen, HeaderPlan, KeptLen, DataOffs, KeptBytes;
      FindHeader(sb, offs, header);
      ghost var area := tree[..Area()];
      ScratchUpdate(sb, offs);
      assert tree[..Area()] == area;
      ScratchInPlace(sb, offs, availOut <= outpReturned, scratch, unread);
    }

    lemma NoHeader()
      requires treeBits == 0 && hdrIb == 0 && padBits == 0 && tree.Length == ZEDC_TREE_LEN
      ensures HeaderLayout() && Area() == 0 && HeaderBits() == []
    {
      hide Of;
    }

    /** After progress, once an obsolete header is gone. */
    ghost predicate Dropped(v: Store, a: Answer, sb: seq<byte>)
      reads this, tree
    {
      && Requested(sb) && ScratchKept(sb, 0) && |sb| == ScratchLen()
      && v.scratch == Of(sb)[scratchIb..] && v.unread == input && inHdrBits == |v.header|
      && inpProcessed == a.inpProcessed && procBits == a.procBits && outpReturned == a.outpReturned
      && a.Pos() > 0 && !a.Ends()
      && v.Sensible(a) && Fits(v, a)
      && outHdrBits == v.HdrBits(a) && (outHdrBits > 0 ==> hdrStart == a.hdrStart && outHdrStartBits == a.hdrStartBits)
      && HeaderLayout() && Area() <= tree.Length && (a.PassedEob() ==> hdrIb == 0)
      && HeaderBits() == (if a.PassedEob() then [] else v.header) && treeBits == |HeaderBits()|
    }

    /** Scratch bytes and skipped bits are those derived from what they were before the answer. */
    ghost predicate ScratchIs(v: Store, a: Answer, sb: seq<byte>, ib: nat, full: bool)
      reads this`scratchIb, this`scratchBits, this`treeBits, this`hdrIb, tree
    {
      && v.Sensible(a) && ib <= 8 * |sb| && v.scratch == Of(sb)[ib..]
      && Scratched(ScratchAfter(v, a, sb, ib, full).0, ScratchAfter(v, a, sb, ib, full).1)
    }

    static lemma Reached(v: Store, a: Answer)
      requires v.Sensible(a) && a.Pos() > 0
      ensures a.Pos() >= |v.header|
      ensures |v.HeaderAfter(a)| == if v.NewHeader(a) then v.HdrBits(a) else if a.PassedEob() then 0 else |v.header|
    {
      hide Bit, Of;
    }

    lemma StillScratch(v: Store, a: Answer, sb: seq<byte>, ib: nat, full: bool)
      requires v.Sensible(a) && a.Pos() > 0 && ib <= 8 * |sb| && v.scratch == Of(sb)[ib..]
      requires Scratched(KeptBytes(sb, v.unread, a.Pos() - |v.header| + ib, full), Part(a.Pos() - |v.header| + ib))
      ensures ScratchIs(v, a, sb, ib, full)
    {
    }

    /** The header in force and the rest of scratch and input are kept. */
    method KeepAll(ghost v: Store, ghost a: Answer, ghost sb: seq<byte>)
      requires Dropped(v, a, sb)
      modifies tree, this`treeBits, this`padBits, this`hdrIb, this`inpDataOffs, this`scratchBits, this`scratchIb
      ensures Kept(v.HeaderAfter(a), NextScratch(v, a, availOut <= outpReturned),
                   NextUnread(v, a, availOut <= outpReturned))
      ensures ScratchIs(v, a, sb, old(scratchIb), availOut <= outpReturned)
    {
      hide Kept, Of, Whole, Part, AreaLen, ScratchPlan, KeptLen, KeptBytes, NextScratch, NextUnread, Store.Sensible,
           Store.HeaderAfter, Answer.Ends, Answer.PassedEob, InflateStream.NewIb, InflateStream.HeaderReady,
           InflateStream.Scratched, InflateStream.ScratchIs, InflateStream.HeaderBits, InflateStream.HeaderLayout;
      Reached(v, a);
      ReadyAfterDrop(v, a, sb);
      ghost var offs, ib, full := a.Pos() - |v.header| + scratchIb, scratchIb, availOut <= outpReturned;
      ScratchPlanned(v, a, ib, sb, full);
      KeepRest(sb, offs, NewIb(v, a), v.HeaderAfter(a), NextScratch(v, a, full), NextUnread(v, a, full));
      StillScratch(v, a, sb, ib, full);
    }

    lemma ReadyAfterDrop(v: Store, a: Answer, sb: seq<byte>)
      requires Dropped(v, a, sb)
      ensures a.Pos() >= |v.header| && HeaderReady(sb, a.Pos() - |v.header| + scratchIb, NewIb(v, a), v.HeaderAfter(a))
    {
      hide Of, Whole, Part, AreaLen, HeaderPlan, KeptLen, Bit, Answer.Ends, Store.Sensible, InflateStream.HeaderBits,
           InflateStream.HeaderLayout, InflateStream.Fits;
      Reached(v, a);
      if v.NewHeader(a) {
        hide Store.HeaderAfter;
        RoomForHeader(v, a);
        NewHeaderPlanned(v, a, scratchIb, sb);
      }
    }

    lemma RoomForHeader(v: Store, a: Answer)
      requires v.Sensible(a) && Fits(v, a) && a.Pos() > 0 && !a.Ends() && v.NewHeader(a) && scratchIb < 8
      ensures a.HdrPos() >= |v.header|
      ensures AreaLen(|v.HeaderAfter(a)| + Part(a.HdrPos() - |v.header| + scratchIb)) <= ZEDC_TREE_LEN
    {
      hide Of, Whole, Part, AreaLen, KeptLen, Bit, Store.HeaderAfter;
    }

    /** Brings header and scratch up to date after progress. */
    method SetupTree(ghost v: Store, ghost a: Answer, ghost sb: seq<byte>)
      requires Answered(v, a, sb) && a.Pos() > 0
      modifies tree, this`treeBits, this`padBits, this`hdrIb, this`outHdrBits, this`outHdrStartBits, this`inpDataOffs,
               this`scratchBits, this`scratchIb, this`eobSeen
      ensures outHdrBits == v.HdrBits(a)
      ensures a.Ends() ==> eobSeen && inpDataOffs == inDataUsed
      ensures !a.Ends() ==> eobSeen == old(eobSeen)
      ensures !a.Ends() ==> Kept(v.HeaderAfter(a), NextScratch(v, a, availOut <= outpReturned),
                                 NextUnread(v, a, availOut <= outpReturned))
      ensures !a.Ends() ==> ScratchIs(v, a, sb, old(scratchIb), availOut <= outpReturned)
    {
      hide Kept, Bit, Of, AreaLen, KeptLen, NextScratch, NextUnread, Store.Sensible, Store.HeaderAfter,
           InflateStream.ScratchIs, InflateStream.Layout, InflateStream.HeaderBits, InflateStream.HeaderLayout;
      Shows();
      var final := DropHeader();
      if final {
        return;
      }
      if Bit(inflStat, 0) {
        NoHeader();
      }
      KeepAll(v, a, sb);
    }

    method Write(dst: nat, bytes: seq<byte>)
      requires dst + |bytes| <= tree.Length
      modifies tree
      ensures tree[dst..dst + |bytes|] == bytes
      ensures forall k | 0 <= k < tree.Length && !(dst <= k < dst + |bytes|) :: tree[k] == old(tree[k])
    {
      forall k | 0 <= k < |bytes| {
        tree[dst + k] := bytes[k];
      }
    }

    /** Writes the header of a stored block for the bytes that remain in it. */
    method WriteStoredHeader()
      requires tree.Length == ZEDC_TREE_LEN
      modifies tree, this`hdrIb, this`treeBits, this`padBits
      ensures hdrIb == 0 && treeBits == 40 && padBits == 24
      ensures tree[..5] == [if Bit(inflStat, 7) then 1 else 0] + Le16(copyblockLen) + Le16(!copyblockLen)
      ensures tree[8..] == old(tree[8..])
    {
      ghost var block := [if Bit(inflStat, 7) then 1 as byte else 0] + Le16(copyblockLen) + Le16(!copyblockLen);
      hide Bit, Le16;
      Write(0, [if Bit(inflStat, 7) then 1 else 0] + Le16(copyblockLen) + Le16(!copyblockLen) + [0xaa, 0xaa]);
      assert tree[..5] == tree[0..7][..5] == block;
      hdrIb, treeBits, padBits := 0, 40, 24;
    }

    lemma StoredInPlace(scratch: seq<bool>, unread: seq<byte>)
      requires tree.Length == ZEDC_TREE_LEN && hdrIb == 0 && treeBits == 40 && padBits == 24
      requires tree[..5] == [if Bit(inflStat, 7) then 1 else 0] + Le16(copyblockLen) + Le16(!copyblockLen)
      requires scratchIb < 8 && scratchIb + scratchBits == 8 * ScratchLen() && 8 + ScratchLen() <= ZEDC_TREE_LEN
      requires Of(tree[8..8 + ScratchLen()])[scratchIb..] == scratch
      requires inpDataOffs <= |input| && input[inpDataOffs..] == unread
      ensures Kept(StoredBits(Bit(inflStat, 7), copyblockLen), scratch, unread)
    {
      HeaderRead(tree[..], 8, 5, 0, 40);
      hide Bit, Of, Le16, Whole;
    }

    static lemma FinalBit(stat: byte)
      ensures Bit(stat, 7) == (stat & 0x80 != 0)
    {
    }

    /** The rewrite replaces a 40-bit header and leaves the scratch alone. */
    method RestoreStoredHeader(ghost ended: bool, ghost header: seq<bool>, ghost scratch: seq<bool>,
                               ghost unread: seq<byte>)
      requires tree.Length == ZEDC_TREE_LEN
      requires !ended ==> Kept(header, scratch, unread) && |header| == 40
      modifies tree, this`hdrIb, this`treeBits, this`padBits
      ensures !ended ==> Kept(StoredBits(Bit(inflStat, 7), copyblockLen), scratch, unread)
      ensures !ended ==> Area() <= tree.Length && IsStoredHeader(HeaderBits(), inflStat & 0x80 != 0, copyblockLen)
      ensures !ended ==> Scratched(old(ScratchBytes()), scratchIb)
    {
      hide Bit, Of, Le16, Whole, StoredBits, IsStoredHeader;
      StoredBitsAre(Bit(inflStat, 7), copyblockLen);
      FinalBit(inflStat);
      ghost var kept := tree[8..];
      assert !ended ==> Area() == 8 && ScratchBytes() == kept[..ScratchLen()];
      WriteStoredHeader();
      assert kept == tree[8..];
      if !ended {
        assert tree[8..8 + ScratchLen()] == kept[..ScratchLen()];
        StoredInPlace(scratch, unread);
      }
    }

    lemma SameHeader(area: seq<byte>)
      requires Area() + ScratchLen() <= tree.Length && tree[..Area()] == area
      ensures HeaderBits() == Of(area)[hdrIb..][..treeBits]
    {
    }

    /** Without progress all input is collected behind the scratch. */
    method CollectInput(ghost sb: seq<byte>)
      requires Layout() && sb == ScratchBytes() && inHdrScratchLen == Area() + |sb|
      requires inpDataOffs == 0 && inHdrScratchLen + |input| <= ZEDC_TREE_LEN
      modifies tree, this`inpDataOffs, this`scratchBits
      ensures Kept(old(HeaderBits()), Of(sb + input)[scratchIb..], []) && Scratched(sb + input, scratchIb)
    {
      hide Of, AreaLen, InflateStream.Layout, InflateStream.Kept, InflateStream.Scratched, InflateStream.HeaderLayout,
           InflateStream.HeaderBits;
      Shows();
      ghost var area := tree[..Area()];
      SameHeader(area);
      if |input| > 0 {
        CopyInput(inHdrScratchLen, 0, |input|);
        inpDataOffs := inpDataOffs + |input|;
        scratchBits := scratchBits + |input| * 8;
      }
      SameHeader(area);
      assert tree[Area()..inHdrScratchLen] == sb && tree[inHdrScratchLen..inHdrScratchLen + |input|] == input;
      Gathered(sb);
    }

    lemma Gathered(sb: seq<byte>)
      requires HeaderLayout() && tree.Length == ZEDC_TREE_LEN && scratchIb < 8 && inHdrScratchLen == Area() + |sb|
      requires scratchIb + scratchBits == 8 * (|sb| + |input|) && inHdrScratchLen + |input| <= ZEDC_TREE_LEN
      requires tree[Area()..inHdrScratchLen] == sb && tree[inHdrScratchLen..inHdrScratchLen + |input|] == input
      requires inpDataOffs == |input|
      ensures Area() <= tree.Length && Kept(HeaderBits(), Of(sb + input)[scratchIb..], [])
      ensures Scratched(sb + input, scratchIb)
    {
      hide Of, AreaLen, InflateStream.HeaderLayout, InflateStream.HeaderBits;
      assert ScratchLen() == |sb| + |input|;
      assert ScratchBytes() == sb + input;
    }

    /** With progress header and scratch are rebuilt; without, input is collected: -311 when it does not fit. */
    method TakeAnswer(ghost v: Store, ghost a: Answer, ghost sb: seq<byte>) returns (rc: int)
      requires Answered(v, a, sb) && inpDataOffs == 0 && |input| <= 0xffff_ffff - 1023
      requires inHdrScratchLen == Area() + |sb|
      modifies tree, this`treeBits, this`padBits, this`hdrIb, this`outHdrBits, this`outHdrStartBits, this`inpDataOffs,
               this`inDataUsed, this`scratchBits, this`scratchIb, this`eobSeen
      ensures rc == if a.Pos() == 0 && |input| > ZEDC_TREE_LEN - inHdrScratchLen then -311 else 0
      ensures outHdrBits == v.HdrBits(a)
      ensures a.Ends() ==> eobSeen && inpDataOffs == InpProcUpdate(inpProcessed, procBits, preScratchBits)
      ensures rc == 0 && !a.Ends() ==>
                Kept(v.HeaderAfter(a), NextScratch(v, a, availOut <= outpReturned),
                     NextUnread(v, a, availOut <= outpReturned))
      ensures rc == 0 && !a.Ends() ==> ScratchIs(v, a, sb, old(scratchIb), availOut <= outpReturned)
    {
      hide Kept, Bit, Of, AreaLen, KeptLen, DataOffs, Fits, Whole, InpProcUpdate, NextScratch, NextUnread,
           Store.Sensible, Store.HeaderAfter, Store.HdrBits, Answer.Ends;
      if a.Pos() == 0 {
        NoProgress(v, a, sb);
      }
      if inpProcessed != 0 || procBits != 0 {
        inDataUsed := InpProcUpdate(inpProcessed, procBits, preScratchBits);
        SetupTree(v, a, sb);
      } else {
        if |input| > ZEDC_TREE_LEN - inHdrScratchLen {
          return -311;
        }
        CollectInput(sb);
        Collected(v, a, sb, availOut <= outpReturned);
      }
      return 0;
    }

    lemma Collected(v: Store, a: Answer, sb: seq<byte>, full: bool)
      requires v.Sensible(a) && a.Pos() == 0 && scratchIb <= 8 * |sb| && v.scratch == Of(sb)[scratchIb..]
      requires v.unread == input && Scratched(sb + input, scratchIb)
      ensures ScratchIs(v, a, sb, scratchIb, full)
    {
    }

    lemma NoProgress(v: Store, a: Answer, sb: seq<byte>)
      requires Answered(v, a, sb) && a.Pos() == 0
      ensures outHdrBits == v.HdrBits(a) && v.header == v.HeaderAfter(a) && !a.Ends()
      ensures forall full :: NextScratch(v, a, full) == Of(sb + input)[scratchIb..] && NextUnread(v, a, full) == []
    {
      JoinBits(sb, input, scratchIb);
      hide Of;
    }

    /** Everything that follows an answer. */
    method PostScratchUpd(ghost v: Store, ghost a: Answer, ghost sb: seq<byte>) returns (rc: int)
      requires Answered(v, a, sb) && inpDataOffs == 0 && |input| <= 0xffff_ffff - 1023
      requires inHdrScratchLen == Area() + |sb| && tree.Length == ZEDC_TREE_LEN
      requires inflStat == a.stat && copyblockLen == a.copyblockLen && v.Sensible(a)
      requires !a.Ends() ==> v.StoredHeader(a)
      modifies tree, this`treeBits, this`padBits, this`hdrIb, this`outHdrBits, this`outHdrStartBits, this`inpDataOffs,
               this`inDataUsed, this`scratchBits, this`scratchIb, this`eobSeen
      ensures rc == if a.Pos() == 0 && |input| > ZEDC_TREE_LEN - inHdrScratchLen then -311 else 0
      ensures outHdrBits == v.HdrBits(a)
      ensures a.Ends() ==> eobSeen && inpDataOffs == InpProcUpdate(inpProcessed, procBits, preScratchBits)
      ensures rc == 0 && !a.Ends() ==> Kept(NextHeader(v, a), NextScratch(v, a, availOut <= outpReturned),
                                            NextUnread(v, a, availOut <= outpReturned))
      ensures rc == 0 && !a.Ends() ==> ScratchIs(v, a, sb, old(scratchIb), availOut <= outpReturned)
    {
      hide Answered, Store.Sensible, Store.HeaderAfter, Kept, Bit, NonZero, Of, AreaLen, StoredBits, KeptLen, DataOffs,
           Fits, Whole, InpProcUpdate, NextScratch, NextUnread, ScratchAfter;
      ghost var full := availOut <= outpReturned;
      rc := TakeAnswer(v, a, sb);
      if rc < 0 {
        return;
      }
      if NonZero(copyblockLen) && !Bit(inflStat, 5) && !Bit(inflStat, 6) && outHdrBits != 0 {
        RestoreStoredHeader(a.Ends(), v.HeaderAfter(a), NextScratch(v, a, full), NextUnread(v, a, full));
      }
    }
  
    /** Sends the request and copies the answer; nothing in the area changes. */
    method Execute(a: Answer)
      requires Layout() && View().Sensible(a) && Fits(View(), a)
      modifies this`inpDataOffs, this`inHdrScratchLen, this`preScratchBits, this`inHdrBits, this`outHdrBits,
               this`hdrStart, this`outHdrStartBits, this`copyblockLen, this`outpReturned, this`inpProcessed,
               this`procBits, this`inflStat
      ensures Answered(old(View()), a, old(ScratchBytes())) && old(View()).Sensible(a)
      ensures inpDataOffs == 0 && inHdrScratchLen == old(Area() + ScratchLen()) == Area() + |old(ScratchBytes())|
      ensures inflStat == a.stat && copyblockLen == a.copyblockLen && outpReturned == a.outpReturned
      ensures inpProcessed == a.inpProcessed && procBits == a.procBits && tree.Length == ZEDC_TREE_LEN
      ensures preScratchBits == treeBits + scratchBits
    {
      hide Of, InflateStream.Layout, InflateStream.View, InflateStream.HeaderBits, InflateStream.ScratchBytes,
           InflateStream.HeaderLayout, Store.Sensible, Fits;
      Shows();
      inpDataOffs := 0;
      SetInflateAsiv();
      GetInflateAsv(a);
    }

    /** Books the output and steps over the input that was used. */
    method Advance(ghost ended: bool, ghost header: seq<bool>, ghost scratch: seq<bool>, ghost unread: seq<byte>)
      returns (rc: int)
      requires if ended then inpDataOffs <= |input| else Kept(header, scratch, unread)
      modifies this`availOut, this`input
      ensures rc == if outpReturned > old(availOut) then -2 else 0
      ensures rc == 0 ==> inpDataOffs <= |old(input)| && input == old(input)[inpDataOffs..]
      ensures rc == 0 ==> availOut == old(availOut) - outpReturned
      ensures rc == 0 && !ended ==> Layout() && View() == Store(header, scratch, unread, outHdrBits)
    {
      hide Of, AreaLen;
      if outpReturned > availOut {
        return -2;
      }
      availOut := availOut - outpReturned;
      if inpDataOffs > |input| {
        assert false;
        return -2;
      }
      input := input[inpDataOffs..];
      return 0;
    }

    lemma Viewed()
      requires Layout()
      ensures Area() + ScratchLen() <= tree.Length == ZEDC_TREE_LEN
      ensures View().unread == input && View().hdrBits == outHdrBits
    {
    }

    lemma UsedInput(a: Answer)
      requires Layout() && View().Sensible(a) && a.Ends() && |input| <= 0xffff_ffff - 1023
      ensures var used := InpProcUpdate(a.inpProcessed, a.procBits, treeBits + scratchBits);
              used <= |input| && input[used..] == UnreadAtEnd(View(), a)
    {
      hide Of, Whole, InpProcUpdate, InflateStream.Layout, InflateStream.View, InflateStream.HeaderBits,
           InflateStream.ScratchBytes, InflateStream.HeaderLayout;
      Shows();
      InputCountAgrees(a.inpProcessed, a.procBits, treeBits + scratchBits, treeBits, scratchIb, ScratchLen());
    }

    /** The part of a request that follows the answer. */
    method Settle(ghost v: Store, ghost a: Answer, ghost sb: seq<byte>) returns (rc: int)
      requires Answered(v, a, sb) && inpDataOffs == 0 && |input| <= 0xffff_ffff - 1023
      requires inHdrScratchLen == Area() + |sb| && tree.Length == ZEDC_TREE_LEN
      requires inflStat == a.stat && copyblockLen == a.copyblockLen && v.Sensible(a)
      requires !a.Ends() ==> v.StoredHeader(a)
      requires a.Ends() ==> InpProcUpdate(inpProcessed, procBits, preScratchBits) <= |input|
      modifies tree, this`treeBits, this`padBits, this`hdrIb, this`outHdrBits, this`outHdrStartBits, this`inpDataOffs,
               this`inDataUsed, this`scratchBits, this`scratchIb, this`eobSeen, this`availOut, this`input
      ensures rc == if (a.Pos() == 0 && |old(input)| > ZEDC_TREE_LEN - inHdrScratchLen) || outpReturned > old(availOut)
                    then -2 else 0
      ensures rc == 0 && !a.Ends() ==>
                Layout() && View() == Store(NextHeader(v, a), NextScratch(v, a, old(availOut) <= outpReturned),
                                            NextUnread(v, a, old(availOut) <= outpReturned), v.HdrBits(a))
      ensures rc == 0 && !a.Ends() ==> ScratchIs(v, a, sb, old(scratchIb), old(availOut) <= outpReturned)
      ensures rc == 0 && a.Ends() ==>
                eobSeen && input == old(input)[InpProcUpdate(inpProcessed, procBits, preScratchBits)..]
      ensures rc == 0 ==> availOut == old(availOut) - outpReturned
      ensures rc == 0 ==> inpDataOffs <= |old(input)| && input == old(input)[inpDataOffs..]
    {
      hide Answered, Store.Sensible, Store.HeaderAfter, Store.HdrBits, Kept, Layout, View, Bit, Of, AreaLen, KeptLen,
           DataOffs, Fits, Whole, InpProcUpdate, NextScratch, NextUnread, NextHeader, Answer.Ends,
           InflateStream.ScratchIs;
      ghost var full := availOut <= outpReturned;
      var err := PostScratchUpd(v, a, sb);
      if err < 0 {
        return -2;
      }
      rc := Advance(a.Ends(), NextHeader(v, a), NextScratch(v, a, full), NextUnread(v, a, full));
    }

    static lemma CutHeader(v: Store, a: Answer)
      requires v.Sensible(a)
      ensures v.CutsStored(a) ==> IsStoredHeader(NextHeader(v, a), a.stat & 0x80 != 0, a.copyblockLen)
    {
      StoredBitsAre(a.Bfinal(), a.copyblockLen);
      StatusBits(a);
      hide StoredBits, IsStoredHeader;
    }

    /** One hardware request: the area and the input afterwards are what the specification keeps. */
    method Request(a: Answer) returns (rc: int)
      requires Layout() && |input| <= 0xffff_ffff - 1023
      requires View().Sensible(a) && Fits(View(), a)
      requires !a.Ends() ==> View().StoredHeader(a)
      modifies this, tree
      ensures rc == if (a.Pos() == 0 && |old(input)| > 512 - old(Area() + ScratchLen()))
                       || a.outpReturned > old(availOut) then -2 else 0
      ensures rc == 0 && !a.Ends() ==> Layout() && View() == Next(old(View()), a, old(availOut) <= a.outpReturned)
      ensures rc == 0 && !a.Ends() && old(View()).CutsStored(a) ==>
                IsStoredHeader(View().header, a.stat & 0x80 != 0, a.copyblockLen)
      ensures rc == 0 && !a.Ends() ==>
                ScratchIs(old(View()), a, old(ScratchBytes()), old(scratchIb), old(availOut) <= a.outpReturned)
      ensures procBits == a.procBits
      ensures rc == 0 && a.Ends() ==> eobSeen && input == UnreadAtEnd(old(View()), a)
      ensures rc == 0 ==> availOut == old(availOut) - a.outpReturned
      ensures rc == 0 ==> inpDataOffs <= |old(input)| && input == old(input)[inpDataOffs..]
    {
      hide Answered, Store.Sensible, Store.HeaderAfter, Store.HdrBits, Kept, Layout, View, Bit, Of, AreaLen, KeptLen,
           DataOffs, Fits, Whole, InpProcUpdate, NextScratch, NextUnread, NextHeader, UnreadAtEnd, Answer.Ends,
           Store.StoredHeader, Store.CutsStored, InflateStream.ScratchIs, IsStoredHeader;
      Viewed();
      CutHeader(View(), a);
      ghost var v, sb := View(), ScratchBytes();
      if a.Ends() {
        UsedInput(a);
      }
      Execute(a);
      rc := Settle(v, a, sb);
    }
  }
}
