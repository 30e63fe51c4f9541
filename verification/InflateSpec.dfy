/** What the inflate side keeps between two hardware requests, as bit strings (lib/inflate.c). */
module InflateSpec {
  import opened Bits
  import opened Words

  /** The result block of one decompression request. Positions count bits of header, scratch and input, in this
      order. */
  datatype Answer = Answer(inpProcessed: nat, procBits: nat, hdrStart: nat, hdrStartBits: nat, outHdrBits: nat,
                           copyblockLen: bv16, outpReturned: nat, stat: byte)
  {
    function Pos(): nat {
      8 * inpProcessed + procBits
    }

    function HdrPos(): nat {
      8 * hdrStart + hdrStartBits
    }

    predicate PassedEob() {
      Bit(stat, 0)
    }

    predicate FinalEob() {
      Bit(stat, 2)
    }

    predicate ReachedEob() {
      Bit(stat, 3)
    }

    /** The block type bits of the status say "stored". */
    predicate Stored() {
      !Bit(stat, 5) && !Bit(stat, 6)
    }

    predicate Bfinal() {
      Bit(stat, 7)
    }

    predicate Ends() {
      Pos() > 0 && PassedEob() && FinalEob()
    }
  }

  /** header: the block header or tree in force; scratch: input kept from earlier calls; unread: the rest of the
      caller's input; hdrBits: the header length reported last. */
  datatype Store = Store(header: seq<bool>, scratch: seq<bool>, unread: seq<byte>, hdrBits: nat)
  {
    /** Compressed data not yet consumed. */
    function Pending(): seq<bool> {
      scratch + Of(unread)
    }

    /** The header length the library works with after an answer. */
    function HdrBits(a: Answer): nat {
      if a.Pos() == 0 then hdrBits
      else if a.PassedEob() && a.ReachedEob() then 0
      else a.outHdrBits
    }

    /** A header is reported that is not the one already in force. */
    predicate NewHeader(a: Answer) {
      a.Pos() > 0 && HdrBits(a) > 0 && (a.HdrPos() > 0 || header == [])
    }

    function HeaderAfter(a: Answer): seq<bool>
      requires Sensible(a)
    {
      if NewHeader(a) then Pending()[a.HdrPos() - |header|..][..HdrBits(a)]
      else if a.Pos() > 0 && a.PassedEob() then []
      else header
    }

    /** The cut went through a stored block, whose header must be rewritten for the remaining bytes. */
    predicate CutsStored(a: Answer) {
      NonZero(a.copyblockLen) && a.Stored() && HdrBits(a) != 0
    }

    /** The contract of the card. */
    predicate Sensible(a: Answer) {
      && a.procBits < 8
      && (a.Pos() > 0 ==> |header| <= a.Pos() <= |header| + |Pending()|)
      && (NewHeader(a) ==> |header| <= a.HdrPos() && a.HdrPos() + HdrBits(a) <= a.Pos())
      && (NewHeader(a) && (a.HdrPos() > 0 || header != []) ==> a.HdrPos() + HdrBits(a) + 8 > |header| + |scratch|)
      && (a.Ends() ==> a.Pos() >= |header| + |scratch|)
    }

    ghost predicate StoredHeader(a: Answer) {
      Sensible(a) && (CutsStored(a) ==> |HeaderAfter(a)| == 40)
    }
  }

  predicate NonZero(len: bv16) {
    len != 0
  }

  /** A stored block's header: type byte, LEN and its complement (RFC 1951, section 3.2.4). */
  function StoredBits(bfinal: bool, len: bv16): (r: seq<bool>)
    ensures |r| == 40
  {
    Of([if bfinal then 1 else 0] + Le16(len) + Le16(!len))
  }

  /** The 40 bits of a stored block's header, each bit of LEN and its complement at its place. */
  ghost predicate IsStoredHeader(h: seq<bool>, bfinal: bool, len: bv16) {
    && |h| == 40 && h[0] == bfinal
    && (forall i | 1 <= i < 8 :: !h[i])
    && (forall i: nat | i < 16 :: h[8 + i] == Bit16(len, i))
    && (forall i: nat | i < 16 :: h[24 + i] == !Bit16(len, i))
  }

  lemma StoredBitsAre(bfinal: bool, len: bv16)
    ensures IsStoredHeader(StoredBits(bfinal, len), bfinal, len)
  {
    var r, s := StoredBits(bfinal, len), [if bfinal then 1 else 0] + Le16(len) + Le16(!len);
    TypeByte(bfinal);
    forall i: nat | i < 16
      ensures r[8 + i] == Bit16(len, i) && r[24 + i] == !Bit16(len, i)
    {
      Le16Bits(len, i);
      Le16Bits(!len, i);
      ComplementBit(len, i);
      assert s[1 + i / 8] == Le16(len)[i / 8] && s[3 + i / 8] == Le16(!len)[i / 8];
      assert r[8 + i] == Bit(s[1 + i / 8], i % 8) && r[24 + i] == Bit(s[3 + i / 8], i % 8);
    }
    hide Bit, Le16;
    assert forall i | 0 <= i < 8 :: r[i] == Bit(s[0], i);
  }

  lemma TypeByte(bfinal: bool)
    ensures var b: byte := if bfinal then 1 else 0; Bit(b, 0) == bfinal && forall i | 1 <= i < 8 :: !Bit(b, i)
  {
  }

  lemma ComplementBit(x: bv16, i: nat)
    requires i < 16
    ensures Bit16(!x, i) == !Bit16(x, i)
  {
    assert i in {0, 1, 2, 3, 4, 5, 6, 7} || i in {8, 9, 10, 11, 12, 13, 14, 15};
  }

  /** The status bits of an answer. */
  lemma StatusBits(a: Answer)
    ensures a.PassedEob() <==> a.stat & 0x01 != 0
    ensures a.FinalEob() <==> a.stat & 0x04 != 0
    ensures a.ReachedEob() <==> a.stat & 0x08 != 0
    ensures a.Stored() <==> a.stat & 0x60 == 0
    ensures a.Bfinal() <==> a.stat & 0x80 != 0
  {
  }

  /** The header kept after an answer, case by case. */
  lemma NextHeaderIs(s: Store, a: Answer)
    requires s.Sensible(a)
    ensures var got, past, h := a.Pos() > 0, a.stat & 0x01 != 0, NextHeader(s, a);
            var bits := if !got then s.hdrBits else if past && a.stat & 0x08 != 0 then 0 else a.outHdrBits;
            if a.copyblockLen != 0 && a.stat & 0x60 == 0 && bits != 0 then
              IsStoredHeader(h, a.stat & 0x80 != 0, a.copyblockLen)
            else if got && bits > 0 && (a.HdrPos() > 0 || s.header == []) then
              |h| == bits && forall k | 0 <= k < bits :: h[k] == s.Pending()[a.HdrPos() - |s.header| + k]
            else h == if got && past then [] else s.header
  {
    StatusBits(a);
    hide Of, Bit, StoredBits, IsStoredHeader;
    StoredBitsAre(a.Bfinal(), a.copyblockLen);
  }

  /** Where the input goes: with output space left all of it is kept; with none, it is left to the caller but for the
      byte in which the request stopped, unless scratch is still unconsumed. */
  lemma NextUnreadIs(s: Store, a: Answer, full: bool)
    requires s.Sensible(a)
    ensures !full || a.Pos() == 0 ==> NextUnread(s, a, full) == []
    ensures full && a.Pos() > 0 ==> NextUnread(s, a, full) == s.unread || |NextScratch(s, a, full)| < 8
  {
    hide Of;
  }

  /** Compressed data the card has not consumed. */
  function Rest(s: Store, a: Answer): seq<bool>
    requires s.Sensible(a)
  {
    if a.Pos() == 0 then s.Pending() else s.Pending()[a.Pos() - |s.header|..]
  }

  /** Input bytes that stay with the caller: only when the output buffer was filled (full). */
  function Left(s: Store, a: Answer, full: bool): (left: nat)
    requires s.Sensible(a)
    ensures left <= |s.unread| && 8 * left <= |Rest(s, a)|
  {
    if full && a.Pos() > 0 then Min(|s.unread|, Whole(|Rest(s, a)|)) else 0
  }

  function NextScratch(s: Store, a: Answer, full: bool): seq<bool>
    requires s.Sensible(a)
  {
    Rest(s, a)[..|Rest(s, a)| - 8 * Left(s, a, full)]
  }

  function NextUnread(s: Store, a: Answer, full: bool): seq<byte>
    requires s.Sensible(a)
  {
    s.unread[|s.unread| - Left(s, a, full)..]
  }

  function NextHeader(s: Store, a: Answer): seq<bool>
    requires s.Sensible(a)
  {
    if s.CutsStored(a) then StoredBits(a.Bfinal(), a.copyblockLen) else s.HeaderAfter(a)
  }

  /** What is kept after a request that did not end the stream. */
  function Next(s: Store, a: Answer, full: bool): Store
    requires s.Sensible(a)
  {
    Store(NextHeader(s, a), NextScratch(s, a, full), NextUnread(s, a, full), s.HdrBits(a))
  }

  /** The compressed bits a request used up. */
  function Consumed(s: Store, a: Answer): seq<bool>
    requires s.Sensible(a)
  {
    if a.Pos() == 0 then [] else s.Pending()[..a.Pos() - |s.header|]
  }

  lemma Halve(a: seq<bool>, k: nat)
    requires k <= |a|
    ensures a[..k] + a[k..] == a
  {
  }

  /** Cutting off from bits in front and left bytes behind loses nothing. */
  lemma CutConserves(scratch: seq<bool>, unread: seq<byte>, p: seq<bool>, from: nat, left: nat)
    requires p == scratch + Of(unread) && from + 8 * left <= |p| && left <= |unread|
    ensures p[..from] + (p[from..][..|p| - from - 8 * left] + Of(unread[|unread| - left..])) == p
  {
    hide Of;
    OfDrop(unread, |unread| - left);
    TailOf(scratch, Of(unread), from, 8 * left);
    Reassemble(p, from, |p| - from - 8 * left);
  }

  lemma Reassemble(p: seq<bool>, from: nat, m: nat)
    requires from + m <= |p|
    ensures p[..from] + (p[from..][..m] + p[from..][m..]) == p
  {
    Halve(p[from..], m);
    Halve(p, from);
  }

  lemma TailOf(a: seq<bool>, b: seq<bool>, from: nat, k: nat)
    requires k <= |b| && from + k <= |a + b|
    ensures (a + b)[from..][|a + b| - from - k..] == b[|b| - k..]
  {
  }

  /** What is consumed and what is kept are two sides of one cut. */
  lemma CutPoint(s: Store, a: Answer) returns (from: nat)
    requires s.Sensible(a)
    ensures from <= |s.Pending()| && Consumed(s, a) == s.Pending()[..from] && Rest(s, a) == s.Pending()[from..]
  {
    hide Of, Store.HdrBits, Store.NewHeader;
    from := if a.Pos() == 0 then 0 else a.Pos() - |s.header|;
  }

  /** Nothing is lost and nothing is shown twice. */
  lemma NextConserves(s: Store, a: Answer, full: bool)
    requires s.Sensible(a)
    ensures Consumed(s, a) + Next(s, a, full).Pending() == s.Pending()
  {
    hide Of, Left, Rest, Consumed, NextHeader, Store.HdrBits, Store.Sensible;
    var from := CutPoint(s, a);
    CutConserves(s.scratch, s.unread, s.Pending(), from, Left(s, a, full));
  }

  /** One call: the caller adds input behind what was left unread, then one request is made. */
  datatype Round = Round(more: seq<byte>, answer: Answer, full: bool)

  function Offer(s: Store, more: seq<byte>): Store {
    s.(unread := s.unread + more)
  }

  predicate LegalRun(s: Store, rounds: seq<Round>)
    decreases |rounds|
  {
    rounds == [] || (
      var t := Offer(s, rounds[0].more);
      && t.Sensible(rounds[0].answer)
      && !rounds[0].answer.Ends()
      && LegalRun(Next(t, rounds[0].answer, rounds[0].full), rounds[1..]))
  }

  function Run(s: Store, rounds: seq<Round>): Store
    requires LegalRun(s, rounds)
    decreases |rounds|
  {
    if rounds == [] then s
    else Run(Next(Offer(s, rounds[0].more), rounds[0].answer, rounds[0].full), rounds[1..])
  }

  function AllConsumed(s: Store, rounds: seq<Round>): seq<bool>
    requires LegalRun(s, rounds)
    decreases |rounds|
  {
    if rounds == [] then []
    else
      var t := Offer(s, rounds[0].more);
      Consumed(t, rounds[0].answer) + AllConsumed(Next(t, rounds[0].answer, rounds[0].full), rounds[1..])
  }

  function AllInput(rounds: seq<Round>): seq<byte> {
    if rounds == [] then [] else rounds[0].more + AllInput(rounds[1..])
  }

  /** However a stream is cut into calls: bits consumed, then the live scratch, then the unread input are the stream. */
  lemma {:induction false} RunConserves(s: Store, rounds: seq<Round>)
    requires LegalRun(s, rounds)
    ensures AllConsumed(s, rounds) + Run(s, rounds).Pending() == s.Pending() + Of(AllInput(rounds))
    decreases |rounds|
  {
    if rounds != [] {
      var r := rounds[0];
      var t := Offer(s, r.more);
      var u := Next(t, r.answer, r.full);
      NextConserves(t, r.answer, r.full);
      RunConserves(u, rounds[1..]);
      OfConcat(s.unread, r.more);
      OfConcat(r.more, AllInput(rounds[1..]));
      var rest := Of(AllInput(rounds[1..]));
      Regroup(Consumed(t, r.answer), AllConsumed(u, rounds[1..]), Run(u, rounds[1..]).Pending());
      Regroup(Consumed(t, r.answer), u.Pending(), rest);
      Regroup(s.scratch, Of(s.unread), Of(r.more));
      Regroup(s.Pending(), Of(r.more), rest);
      hide Of, Next, Consumed;
    }
  }

  /** Caller's bytes left over when the final block ended: the rest of the last byte is dropped. */
  function UnreadAtEnd(s: Store, a: Answer): seq<byte>
    requires s.Sensible(a) && a.Ends()
  {
    s.unread[Whole(a.Pos() - |s.header| - |s.scratch| + 7)..]
  }

  /** The bits between the end of the final block and the next byte. */
  function DroppedAtEnd(s: Store, a: Answer): seq<bool>
    requires s.Sensible(a) && a.Ends()
  {
    Rest(s, a)[..|Rest(s, a)| - 8 * |UnreadAtEnd(s, a)|]
  }

  /** The request that ends the stream gives back all whole bytes behind the final block. */
  lemma EndConserves(s: Store, a: Answer)
    requires s.Sensible(a) && a.Ends()
    ensures Consumed(s, a) + DroppedAtEnd(s, a) + Of(UnreadAtEnd(s, a)) == s.Pending()
    ensures |DroppedAtEnd(s, a)| < 8
  {
    var from := a.Pos() - |s.header|;
    var left := |UnreadAtEnd(s, a)|;
    hide Of;
    CutConserves(s.scratch, s.unread, s.Pending(), from, left);
    Regroup(Consumed(s, a), DroppedAtEnd(s, a), Of(UnreadAtEnd(s, a)));
  }

  /** A run up to the end of the final block: bits consumed, at most seven bits to the next byte, and the bytes left to
      the caller are the stream. */
  lemma RunEnds(s: Store, rounds: seq<Round>, last: Round)
    requires LegalRun(s, rounds)
    requires var t := Offer(Run(s, rounds), last.more); t.Sensible(last.answer) && last.answer.Ends()
    ensures var t := Offer(Run(s, rounds), last.more);
            && |DroppedAtEnd(t, last.answer)| < 8
            && AllConsumed(s, rounds)
               + (Consumed(t, last.answer) + DroppedAtEnd(t, last.answer) + Of(UnreadAtEnd(t, last.answer)))
               == s.Pending() + Of(AllInput(rounds) + last.more)
  {
    var u := Run(s, rounds);
    var t := Offer(u, last.more);
    RunConserves(s, rounds);
    EndConserves(t, last.answer);
    OfConcat(u.unread, last.more);
    OfConcat(AllInput(rounds), last.more);
    hide Of, Consumed, DroppedAtEnd, UnreadAtEnd, AllConsumed, Run, AllInput;
    Regroup(u.scratch, Of(u.unread), Of(last.more));
    Regroup(AllConsumed(s, rounds), u.Pending(), Of(last.more));
    Regroup(s.Pending(), Of(AllInput(rounds)), Of(last.more));
  }
}
