/** The ideal output of the deflate side and the call-by-call specification of zedc_deflate (lib/deflate.c). */
module DeflateSpec {
  import opened Bits
  import opened Words
  import opened Framing

  /** BFINAL=0, BTYPE=01: a fixed-Huffman block is left open between calls. */
  const OPEN_BITS: seq<bool> := [false, true, false]

  /** The pieces a compressed stream is made of. */
  datatype Seg =
    | Head(format: Format, head: Option<GzHead>, dict: Option<bv32>, now: bv32)
    | Open                      // header of the first fixed block
    | Body(bits: seq<bool>)     // new bits of one hardware request
    | Sync                      // flush marker, then a new fixed block
    | Close                     // end of block and an empty final block
    | Trail(format: Format, crc: bv32, adler: bv32, total: nat)

  /** The bits of a piece that starts at bit offset at (RFC 1951, sections 3.2.3 and 3.2.4). */
  function SegBits(x: Seg, at: nat): seq<bool> {
    match x
    case Head(format, head, dict, now) => Of(Header(format, head, dict, now))
    case Open => OPEN_BITS
    case Body(bits) => bits
    case Sync => Zeros(7) + [false, false, false] + Zeros(PadLen(at + 10)) + Zeros(16) + Ones(16) + OPEN_BITS
    case Close => Zeros(7) + [true, true, false] + Zeros(7) + Zeros(PadLen(at + 17))
    case Trail(format, crc, adler, total) => Of(Trailer(format, crc, adler, total))
  }

  function Render(segs: seq<Seg>): seq<bool> {
    if segs == [] then [] else
    var front := Render(segs[..|segs| - 1]);
    front + SegBits(segs[|segs| - 1], |front|)
  }

  lemma RenderAppend(segs: seq<Seg>, x: Seg)
    ensures Render(segs + [x]) == Render(segs) + SegBits(x, |Render(segs)|)
  {
    assert (segs + [x])[..|segs|] == segs;
  }

  datatype Flush = NoFlush | PartialFlush | SyncFlush | FullFlush | Finish | Block

  datatype Rc = Ok | StreamEnd | StreamError

  /** What the card reports for one compression request; out is what it wrote at next_out. */
  datatype Answer = Answer(executed: bool, inpProcessed: nat, out: seq<byte>, onumbits: nat,
                           obits: seq<byte>, obitsExtra: seq<byte>, crc: bv32, adler: bv32, dictOffs: nat)
  {
    ghost predicate Valid() {
      |obits| == 24 && |obitsExtra| == 7 && onumbits < 256
    }

    /** The left-over bytes: the newer card also uses the bytes behind out_dict_offs. */
    function Stored(dyn: bool): (s: seq<byte>)
      requires |obits| == 24 && |obitsExtra| == 7
      ensures |s| == if dyn then 31 else 23
    {
      if dyn then obits + obitsExtra else obits[..23]
    }

    /** The sanity checks an answer must pass. */
    predicate Accepted(availIn: nat, room: nat, dyn: bool) {
      && executed && dictOffs < 16
      && inpProcessed <= availIn
      && 0 < |out| <= room
      && onumbits <= 8 * (if dyn then 31 else 23)
      && (|out| < room ==> onumbits <= 7)
    }

    /** Everything the card produced, carried-in bits included. */
    function AllBits(dyn: bool): seq<bool>
      requires Valid() && onumbits <= 8 * (if dyn then 31 else 23)
    {
      Of(out) + Of(Stored(dyn))[..onumbits]
    }
  }

  /** The caller sets availIn and availOut before each call. */
  datatype Call = Call(flush: Flush, availIn: nat, availOut: nat, now: bv32, answer: Answer)

  /** The stream as its caller sees it: the pieces generated so far and how many bytes of them were delivered. */
  datatype Stream = Stream(format: Format, dyn: bool, head: Option<GzHead>, dict: Option<bv32>,
                           headerAdded: bool, eobAdded: bool, trailerAdded: bool,
                           segs: seq<Seg>, sent: nat, crc: bv32, adler: bv32, totalIn: nat)
  {
    function Bits(): seq<bool> {
      Render(segs)
    }

    /** Whole bytes generated but not delivered. */
    function Ready(): int {
      Whole(|Bits()|) - sent
    }

    /** Bits of the incomplete last byte. */
    function Tail(): seq<bool> {
      Bits()[8 * Whole(|Bits()|)..]
    }

    predicate Done() {
      eobAdded && trailerAdded && Ready() == 0
    }

    function Add(x: Seg): Stream {
      this.(segs := segs + [x])
    }

    predicate NeedsHeader() {
      format != Defl && !headerAdded
    }

    predicate HeaderRefused() {
      format == Gzip && !headerAdded && !HeadAccepted(head)
    }

    function WithHeader(now: bv32): Stream {
      if NeedsHeader() then
        this.(segs := [Head(format, head, dict, now)] + segs, headerAdded := true)
      else this
    }

    function Drain(room: nat): Stream
      requires Ready() >= 0
    {
      this.(sent := sent + Min(room, Ready()))
    }

    /** End of block and trailer, each at most once. */
    function WithEnd(): Stream {
      var s := if eobAdded then this else Add(Close).(eobAdded := true);
      if s.trailerAdded then s
      else s.Add(Trail(format, crc, adler, totalIn)).(trailerAdded := true)
    }

    function WithAnswer(a: Answer): Stream
      requires a.Valid() && a.onumbits <= 8 * (if dyn then 31 else 23)
      requires |Tail()| <= |a.AllBits(dyn)|
    {
      Add(Body(a.AllBits(dyn)[|Tail()|..])).(sent := sent + |a.out|,
        crc := a.crc, adler := a.adler, totalIn := totalIn + a.inpProcessed)
    }

    /** The card continues the incomplete byte it was handed as ibits. */
    ghost predicate Continues(a: Answer) {
      && a.Valid()
      && (a.onumbits <= 8 * (if dyn then 31 else 23) ==> Tail() <= a.AllBits(dyn))
    }
  }

  /** Every flush marker comes behind new bits. */
  ghost predicate MarkersApart(segs: seq<Seg>) {
    forall k | 0 <= k < |segs| && segs[k].Sync? :: k > 0 && segs[k - 1].Body?
  }

  lemma StaysApart(segs: seq<Seg>, x: Seg)
    requires MarkersApart(segs) && (x.Sync? ==> segs != [] && segs[|segs| - 1].Body?)
    ensures MarkersApart(segs + [x])
  {
  }

  /** The header first, then only pieces of the body, then at the very end one Close and one Trail. */
  ghost predicate Grammar(s: Stream) {
    var first := if s.headerAdded then 1 else 0;
    var end := |s.segs| - (if s.eobAdded then 2 else 0);
    && first < end
    && (s.headerAdded ==> s.format != Defl && s.segs[0].Head?
                          && s.segs[0] == Head(s.format, s.head, s.dict, s.segs[0].now))
    && s.segs[first] == Open
    && (forall k :: first < k < end ==> s.segs[k].Body? || s.segs[k].Sync?)
    && (s.eobAdded ==> s.segs[end] == Close
                       && s.segs[end + 1] == Trail(s.format, s.crc, s.adler, s.totalIn))
  }

  /** What holds between calls. */
  ghost predicate Good(s: Stream) {
    && s.trailerAdded == s.eobAdded
    && Grammar(s) && MarkersApart(s.segs)
    && (s.NeedsHeader() ==> s.segs == [Open] && s.sent == 0)
    && 8 * s.sent <= |s.Bits()|
    && (s.eobAdded ==> Aligned(|s.Bits()|))
  }

  function Initial(format: Format, dyn: bool, head: Option<GzHead>, dict: Option<bv32>): Stream {
    Stream(format, dyn, head, dict, false, false, false, [Open], 0, 0, 1, 0)
  }

  /** The state in which the card is asked to compress, if it is asked. */
  function AtRequest(s: Stream, c: Call): Stream
    requires s.Ready() >= 0
  {
    var t := s.WithHeader(c.now);
    if t.Ready() >= 0 then t.Drain(c.availOut) else t
  }

  function Room(s: Stream, c: Call): int
    requires s.Ready() >= 0
  {
    c.availOut - (AtRequest(s, c).sent - s.sent)
  }

  predicate Reaches(s: Stream, c: Call)
    requires s.Ready() >= 0
  {
    && !s.HeaderRefused()
    && Room(s, c) > 0
    && c.availIn > 0
    && !AtRequest(s, c).Done()
  }

  /** The card keeps its contract when it is asked. */
  ghost predicate Legal(s: Stream, c: Call)
    requires s.Ready() >= 0
  {
    Reaches(s, c) ==> AtRequest(s, c).Continues(c.answer)
  }

  predicate MarksFlush(f: Flush) {
    f == SyncFlush || f == PartialFlush || f == FullFlush
  }

  function Result(s: Stream): Rc {
    if s.Done() then StreamEnd else Ok
  }

  /** What the flush mode adds behind the card's answer. */
  function WithFlush(s: Stream, c: Call): Stream {
    if c.flush == Finish && c.answer.inpProcessed == c.availIn then s.WithEnd()
    else if MarksFlush(c.flush) then s.Add(Sync)
    else s
  }

  /** The part of a call after the card was asked with room bytes of output space. */
  ghost function AfterRequest(s: Stream, c: Call, room: nat): (r: (Stream, Rc))
    requires Good(s) && s.Ready() == 0 && s.Continues(c.answer)
  {
    if !c.answer.Accepted(c.availIn, room, s.dyn) then (s, StreamError)
    else
      AnswerFits(s, c.answer);
      var t := s.WithAnswer(c.answer);
      FlushGrows(t, c);
      var v := WithFlush(t, c).Drain(room - |c.answer.out|);
      (v, Result(v))
  }

  /** One zedc_deflate call: the new stream and the return code. */
  ghost function Step(s: Stream, c: Call): (r: (Stream, Rc))
    requires Good(s) && Legal(s, c)
  {
    if s.HeaderRefused() then (s, StreamError)
    else
      HeaderGrows(s, c);
      var t := AtRequest(s, c);
      var room := Room(s, c);
      if room == 0 then (t, Ok)
      else if c.availIn > 0 then
        if t.Done() then (t, StreamEnd) else AfterRequest(t, c, room)
      else if c.flush == Finish then
        EndGrows(t);
        var u := t.WithEnd().Drain(room);
        (u, Result(u))
      else (t, Result(t))
  }

  lemma AppendGrows(s: Stream, x: Seg)
    ensures s.Add(x).Bits() == s.Bits() + SegBits(x, |s.Bits()|)
  {
    RenderAppend(s.segs, x);
  }

  lemma CloseAligns(s: Stream)
    ensures Aligned(|s.Add(Close).Bits()|)
  {
    hide Render, Whole, PadLen;
    var at := |s.Bits()|;
    AppendGrows(s, Close);
    assert |s.Add(Close).Bits()| == at + 17 + PadLen(at + 17);
  }

  lemma WholeBytesKeepAlignment(a: seq<bool>, b: seq<byte>)
    requires Aligned(|a|)
    ensures Aligned(|a + Of(b)|)
  {
  }

  lemma EndAppends(s: Stream)
    requires !s.trailerAdded && !s.eobAdded
    ensures s.WithEnd().Bits() == s.Add(Close).Bits() + SegBits(Trail(s.format, s.crc, s.adler, s.totalIn), 0)
    ensures Aligned(|s.WithEnd().Bits()|)
  {
    hide Trailer, Render;
    AppendGrows(s.Add(Close), Trail(s.format, s.crc, s.adler, s.totalIn));
    CloseAligns(s);
    WholeBytesKeepAlignment(s.Add(Close).Bits(), Trailer(s.format, s.crc, s.adler, s.totalIn));
  }

  lemma EndGrows(s: Stream)
    requires s.trailerAdded == s.eobAdded
    ensures s.eobAdded ==> s.WithEnd() == s
    ensures s.Bits() <= s.WithEnd().Bits()
  {
    if !s.eobAdded {
      EndAppends(s);
      AppendGrows(s, Close);
    }
  }

  lemma FlushGrows(s: Stream, c: Call)
    requires s.trailerAdded == s.eobAdded
    ensures s.Bits() <= WithFlush(s, c).Bits()
  {
    EndGrows(s);
    AppendGrows(s, Sync);
  }

  lemma Splice(a: seq<bool>, k: nat, all: seq<bool>)
    requires k <= |a| && a[k..] <= all
    ensures a + all[|a| - k..] == a[..k] + all
  {
  }

  lemma AnswerFits(s: Stream, a: Answer)
    requires Good(s) && s.Ready() == 0 && s.Continues(a) && a.onumbits <= 8 * (if s.dyn then 31 else 23)
    ensures |s.Tail()| <= |a.AllBits(s.dyn)|
    ensures s.WithAnswer(a).Bits() == s.Bits()[..8 * s.sent] + a.AllBits(s.dyn)
    ensures s.Bits() <= s.WithAnswer(a).Bits()
    ensures 8 * s.WithAnswer(a).sent <= |s.WithAnswer(a).Bits()|
  {
    hide Render, Of;
    var all := a.AllBits(s.dyn);
    AppendGrows(s, Body(all[|s.Tail()|..]));
    Splice(s.Bits(), 8 * s.sent, all);
  }

  lemma HeaderInFront(s: Stream, now: bv32)
    requires s.segs == [Open]
    requires s.NeedsHeader()
    ensures s.WithHeader(now).Bits() == Of(Header(s.format, s.head, s.dict, now)) + s.Bits()
  {
    var h := Head(s.format, s.head, s.dict, now);
    assert Render([Open]) == OPEN_BITS by {
      RenderAppend([], Open);
      assert [] + [Open] == [Open];
    }
    assert Render([h]) == SegBits(h, 0) by {
      RenderAppend([], h);
      assert [] + [h] == [h];
    }
    RenderAppend([h], Open);
  }

  lemma RequestOutcome(s: Stream, c: Call, room: nat)
    requires Good(s) && s.Ready() == 0 && s.Continues(c.answer)
    ensures !c.answer.Accepted(c.availIn, room, s.dyn) ==> AfterRequest(s, c, room) == (s, StreamError)
    ensures c.answer.Accepted(c.availIn, room, s.dyn) ==>
              && c.answer.onumbits <= 8 * (if s.dyn then 31 else 23) && |s.Tail()| <= |c.answer.AllBits(s.dyn)|
              && var t := WithFlush(s.WithAnswer(c.answer), c);
                 && t.Ready() >= 0 && |c.answer.out| <= room
                 && AfterRequest(s, c, room) == (t.Drain(room - |c.answer.out|), Result(t.Drain(room - |c.answer.out|)))
  {
    hide Render, Grammar, Of, SegBits, PadLen;
    if c.answer.Accepted(c.availIn, room, s.dyn) {
      AnswerFits(s, c.answer);
      FlushGrows(s.WithAnswer(c.answer), c);
      assert WithFlush(s.WithAnswer(c.answer), c).sent == s.WithAnswer(c.answer).sent;
    }
  }

  lemma DrainKeepsGood(s: Stream, room: nat)
    requires Good(s) && !s.NeedsHeader()
    ensures Good(s.Drain(room))
    ensures room > s.Drain(room).sent - s.sent ==> s.Drain(room).Ready() == 0
  {
    hide Render;
    assert Grammar(s.Drain(room));
  }

  lemma HeaderKeepsGood(s: Stream, now: bv32)
    requires Good(s)
    ensures Good(s.WithHeader(now))
  {
    if s.NeedsHeader() {
      HeaderInFront(s, now);
      assert s.WithHeader(now).segs == [Head(s.format, s.head, s.dict, now), Open];
    }
  }

  lemma HeaderGrows(s: Stream, c: Call)
    requires Good(s)
    ensures AtRequest(s, c).Ready() >= 0 && Room(s, c) >= 0
    ensures Good(AtRequest(s, c))
    ensures Room(s, c) > 0 ==> AtRequest(s, c).Ready() == 0
  {
    hide Render, Grammar, Whole, Header;
    HeaderKeepsGood(s, c.now);
    DrainKeepsGood(s.WithHeader(c.now), c.availOut);
  }

  /** Input that is offered behind the end of block never reaches the card. */
  lemma EndTakesNoInput(s: Stream, c: Call)
    requires Good(s) && Legal(s, c) && s.eobAdded && !s.HeaderRefused() && c.availIn > 0
    ensures !Reaches(s, c) && Step(s, c) == (AtRequest(s, c), if Room(s, c) == 0 then Ok else StreamEnd)
  {
    hide Render, Grammar, MarkersApart, Of, Whole, AfterRequest, Stream.Continues;
    HeaderGrows(s, c);
  }

  lemma WithEndHasHeader(s: Stream)
    requires !s.NeedsHeader()
    ensures !s.WithEnd().NeedsHeader()
  {
  }

  lemma EndKeepsGood(s: Stream)
    requires Good(s) && !s.NeedsHeader()
    ensures Good(s.WithEnd())
  {
    hide Render, SegBits, Whole, PadLen, Of, MarkersApart;
    if !s.eobAdded {
      var t := s.WithEnd();
      EndGrows(s);
      EndAppends(s);
      assert t.segs == s.segs + [Close, Trail(s.format, s.crc, s.adler, s.totalIn)];
      StaysApart(s.segs, Close);
      StaysApart(s.segs + [Close], Trail(s.format, s.crc, s.adler, s.totalIn));
      assert Grammar(t);
    }
  }

  predicate EndsWithBody(s: Stream) {
    s.segs != [] && s.segs[|s.segs| - 1].Body?
  }

  lemma BodyKeepsGood(s: Stream, a: Answer)
    requires Good(s) && !s.NeedsHeader() && s.Ready() == 0 && !s.eobAdded
    requires s.Continues(a) && a.onumbits <= 8 * (if s.dyn then 31 else 23)
    ensures Good(s.WithAnswer(a)) && !s.WithAnswer(a).eobAdded && EndsWithBody(s.WithAnswer(a))
  {
    AnswerFits(s, a);
    hide Render;
    StaysApart(s.segs, Body(a.AllBits(s.dyn)[|s.Tail()|..]));
    assert Grammar(s.WithAnswer(a));
  }

  lemma SyncKeepsGood(s: Stream)
    requires Good(s) && !s.NeedsHeader() && !s.eobAdded && EndsWithBody(s)
    ensures Good(s.Add(Sync))
  {
    AppendGrows(s, Sync);
    hide Render;
    StaysApart(s.segs, Sync);
    assert Grammar(s.Add(Sync));
  }

  lemma FlushKeepsGood(s: Stream, c: Call)
    requires Good(s) && !s.NeedsHeader() && !s.eobAdded && EndsWithBody(s)
    ensures Good(WithFlush(s, c)) && !WithFlush(s, c).NeedsHeader() && WithFlush(s, c).sent == s.sent
  {
    EndKeepsGood(s);
    SyncKeepsGood(s);
  }

  /** The part after the request appends body, marker or end, and delivers at most room bytes. */
  lemma AfterRequestKeeps(s: Stream, c: Call, room: nat)
    requires Good(s) && s.Ready() == 0 && !s.NeedsHeader() && !s.eobAdded && s.Continues(c.answer)
    requires c.answer.Accepted(c.availIn, room, s.dyn)
    ensures Good(AfterRequest(s, c, room).0)
    ensures !AfterRequest(s, c, room).0.NeedsHeader()
    ensures s.Bits() <= AfterRequest(s, c, room).0.Bits()
    ensures s.sent <= AfterRequest(s, c, room).0.sent <= s.sent + room
  {
    AnswerFits(s, c.answer);
    BodyKeepsGood(s, c.answer);
    hide Render, Grammar, Of, SegBits, Whole, PadLen, WithFlush;
    var u := s.WithAnswer(c.answer);
    FlushGrows(u, c);
    FlushKeepsGood(u, c);
    DrainKeepsGood(WithFlush(u, c), room - |c.answer.out|);
    Extends(s.Bits(), u.Bits(), WithFlush(u, c).Bits());
  }

  /** Every call that does not fail keeps the stream well formed. */
  lemma StepKeepsGood(s: Stream, c: Call)
    requires Good(s) && Legal(s, c)
    requires Step(s, c).1 != StreamError
    ensures Good(Step(s, c).0) && !Step(s, c).0.NeedsHeader()
    ensures Step(s, c).1 == StreamEnd ==> Step(s, c).0.Done()
  {
    hide Render, Grammar, Of, SegBits, Whole, PadLen;
    HeaderGrows(s, c);
    var t, room := AtRequest(s, c), Room(s, c);
    if room > 0 && c.availIn > 0 && !t.Done() {
      AfterRequestKeeps(t, c, room);
    } else if room > 0 && c.availIn == 0 && c.flush == Finish {
      EndKeepsGood(t);
      DrainKeepsGood(t.WithEnd(), room);
    }
  }

  /** The bits handed to the caller so far. */
  function Delivered(s: Stream): seq<bool>
    requires 8 * s.sent <= |s.Bits()|
  {
    s.Bits()[..8 * s.sent]
  }

  /** A call only appends to what was generated, and so to what was delivered. */
  lemma StepAppends(s: Stream, c: Call)
    requires Good(s) && Legal(s, c) && !s.NeedsHeader()
    requires Step(s, c).1 != StreamError
    ensures s.Bits() <= Step(s, c).0.Bits()
    ensures s.sent <= Step(s, c).0.sent <= s.sent + c.availOut
  {
    hide Render, Grammar, Of, SegBits, Whole, PadLen;
    HeaderGrows(s, c);
    var t, room := AtRequest(s, c), Room(s, c);
    if room > 0 && c.availIn > 0 && !t.Done() {
      AfterRequestKeeps(t, c, room);
    } else if room > 0 && c.availIn == 0 && c.flush == Finish {
      EndGrows(t);
    }
  }

  /** Asked to finish with nothing left to compress and enough output space, the call ends the stream. */
  lemma FinishEnds(s: Stream, c: Call)
    requires Good(s) && Legal(s, c) && !s.NeedsHeader()
    requires c.flush == Finish && c.availIn == 0
    requires c.availOut > s.Ready() && 8 * (s.sent + c.availOut) >= |s.WithEnd().Bits()|
    ensures Step(s, c).1 == StreamEnd
  {
    hide Render, Grammar, Of, SegBits, Whole, PadLen;
    HeaderGrows(s, c);
    var t := AtRequest(s, c);
    assert t.Bits() == s.Bits() && t.WithEnd().Bits() == s.WithEnd().Bits();
    EndKeepsGood(t);
  }

  /** In a run the card keeps its contract, call by call, until an error or the end. */
  ghost predicate LegalRun(s: Stream, calls: seq<Call>)
    requires Good(s)
    decreases |calls|
  {
    calls == [] || (
      && Legal(s, calls[0])
      && (Step(s, calls[0]).1 == Ok ==>
            (StepKeepsGood(s, calls[0]); LegalRun(Step(s, calls[0]).0, calls[1..]))))
  }

  /** The state after a run and the code of its last call. */
  ghost function Run(s: Stream, calls: seq<Call>): (Stream, Rc)
    requires Good(s) && LegalRun(s, calls)
    decreases |calls|
  {
    if calls == [] then (s, Ok) else
    var (t, rc) := Step(s, calls[0]);
    if rc != Ok then (t, rc) else
    StepKeepsGood(s, calls[0]);
    Run(t, calls[1..])
  }

  /** Optional header, open block, body, one Close, one Trail, and all of it delivered. */
  ghost predicate Complete(s: Stream) {
    && s.eobAdded
    && Grammar(s) && MarkersApart(s.segs)
    && 8 * s.sent == |s.Bits()|
  }

  /** Whatever the output spaces and the card's answers were, the run keeps the stream well formed,
      never takes back a delivered byte, and reports the end only when all of it was delivered. */
  lemma {:induction false} RunDelivers(s: Stream, calls: seq<Call>)
    requires Good(s) && LegalRun(s, calls) && Run(s, calls).1 != StreamError
    ensures Good(Run(s, calls).0)
    ensures !s.NeedsHeader() ==> Delivered(s) <= Delivered(Run(s, calls).0)
    ensures Run(s, calls).1 == StreamEnd ==> Complete(Run(s, calls).0)
    decreases |calls|
  {
    if calls != [] {
      var c := calls[0];
      var (t, rc) := Step(s, c);
      StepKeepsGood(s, c);
      if !s.NeedsHeader() {
        StepAppends(s, c);
      }
      if rc == Ok {
        RunDelivers(t, calls[1..]);
      }
    }
  }

  // ---- what a call writes, case by case ----

  /** The pieces in front of everything that this call adds. */
  function NewHeader(s: Stream, now: bv32): seq<Seg> {
    if s.format != Defl && !s.headerAdded then [Head(s.format, s.head, s.dict, now)] else []
  }

  /** The header is refused exactly for its texts, and then nothing else happens. */
  lemma RefusedOutcome(s: Stream, c: Call)
    requires Good(s) && Legal(s, c)
    ensures var h := s.head;
            var refused := s.format == Gzip && !s.headerAdded && h.Some?
              && (|Text(h.value.name)| + |Text(h.value.comment)| + |Text(h.value.extra)|) % 0x1_0000_0000 > 240;
            (s.HeaderRefused() <==> refused) && (refused ==> Step(s, c) == (s, StreamError))
  {
  }

  /** What precedes a request changes only header and delivery. */
  lemma AtRequestIs(s: Stream, c: Call)
    requires Good(s)
    ensures var t := AtRequest(s, c);
            && t == s.(segs := t.segs, headerAdded := t.headerAdded, sent := t.sent)
            && t.segs == NewHeader(s, c.now) + s.segs && Room(s, c) == c.availOut - (t.sent - s.sent)
  {
    hide Render, Grammar, MarkersApart, Whole;
  }

  /** The output space left for the card is what header and pending bytes do not need. */
  lemma RoomIs(s: Stream, c: Call)
    requires Good(s)
    ensures var header := if NewHeader(s, c.now) == [] then [] else Header(s.format, s.head, s.dict, c.now);
            var pending := s.Ready() + |header|;
            Room(s, c) == if pending < c.availOut then c.availOut - pending else 0
  {
    hide Grammar, MarkersApart, Header, Of;
    if s.NeedsHeader() {
      HeaderInFront(s, c.now);
    }
    hide Render;
  }

  /** The card is asked exactly if there is input, output space behind what is pending, and no end of block yet. */
  lemma ReachesIff(s: Stream, c: Call)
    requires Good(s)
    ensures Reaches(s, c) <==> !s.HeaderRefused() && Room(s, c) > 0 && c.availIn > 0 && !s.eobAdded
  {
    hide Render, Grammar, MarkersApart, Whole, HeadAccepted;
    HeaderGrows(s, c);
  }

  /** A call that does not reach the card. */
  lemma QuietOutcome(s: Stream, c: Call)
    requires Good(s) && Legal(s, c) && !s.HeaderRefused() && !Reaches(s, c)
    ensures var (t, rc) := Step(s, c);
            && rc != StreamError
            && t.segs == NewHeader(s, c.now) + s.segs
               + (if c.flush == Finish && c.availIn == 0 && Room(s, c) > 0 && !s.eobAdded
                  then [Close, Trail(s.format, s.crc, s.adler, s.totalIn)] else [])
            && t.totalIn == s.totalIn && t.crc == s.crc && t.adler == s.adler
  {
    hide Render, Grammar, MarkersApart, Of, Whole, AfterRequest, AtRequest, Room, NewHeader, Stream.Continues;
    HeaderGrows(s, c);
    AtRequestIs(s, c);
    var t := AtRequest(s, c);
    assert t.segs + [] == t.segs && t.segs + [Close] + [Trail(s.format, s.crc, s.adler, s.totalIn)] ==
                                    t.segs + [Close, Trail(s.format, s.crc, s.adler, s.totalIn)];
  }

  /** A call that reaches the card fails exactly if the answer fails a check; otherwise it writes the new bits, and then
      what its flush mode asks for: a marker, or the end if all input was processed. */
  lemma CardOutcome(s: Stream, c: Call)
    requires Good(s) && Legal(s, c) && Reaches(s, c)
    ensures var (t, rc) := Step(s, c); var (u, a, room) := (AtRequest(s, c), c.answer, Room(s, c));
            var fine := a.executed && a.dictOffs < 16 && a.inpProcessed <= c.availIn && 0 < |a.out| <= room
              && a.onumbits <= (if s.dyn then 248 else 184) && (|a.out| < room ==> a.onumbits <= 7);
            && (rc == StreamError <==> !fine)
            && (fine ==>
                 && |u.Tail()| <= |a.AllBits(s.dyn)|
                 && t.segs == NewHeader(s, c.now) + s.segs + [Body(a.AllBits(s.dyn)[|u.Tail()|..])]
                    + (if c.flush == SyncFlush || c.flush == PartialFlush || c.flush == FullFlush then [Sync]
                       else if c.flush == Finish && a.inpProcessed == c.availIn then
                         [Close, Trail(s.format, a.crc, a.adler, s.totalIn + a.inpProcessed)]
                       else [])
                 && t.totalIn == s.totalIn + a.inpProcessed && t.crc == a.crc && t.adler == a.adler)
  {
    hide Render, Grammar, MarkersApart, Of, Whole, AtRequest, Room, NewHeader, Answer.AllBits;
    HeaderGrows(s, c);
    AtRequestIs(s, c);
    var u, a := AtRequest(s, c), c.answer;
    if a.Accepted(c.availIn, Room(s, c), s.dyn) {
      AnswerFits(u, a);
      var front := u.segs + [Body(a.AllBits(s.dyn)[|u.Tail()|..])];
      var trail := Trail(s.format, a.crc, a.adler, s.totalIn + a.inpProcessed);
      assert front + [] == front && front + [Close] + [trail] == front + [Close, trail];
    }
  }

  /** Output is held back only when the space for it is used up, and the end is reported when there is none left. */
  lemma DeliveredOutcome(s: Stream, c: Call)
    requires Good(s) && Legal(s, c) && Step(s, c).1 != StreamError
    ensures var (t, rc) := Step(s, c);
            && (t.Ready() == 0 || t.sent == s.sent + c.availOut)
            && (rc == StreamEnd <==> Room(s, c) > 0 && t.eobAdded && t.Ready() == 0)
  {
    hide Render, Grammar, MarkersApart, Of, Whole, AtRequest, Room, Answer.AllBits, Stream.WithEnd, WithFlush,
         Stream.Drain;
    HeaderGrows(s, c);
    AtRequestIs(s, c);
    StepKeepsGood(s, c);
    var u, room := AtRequest(s, c), Room(s, c);
    if Reaches(s, c) {
      AnswerFits(u, c.answer);
      FlushGrows(u.WithAnswer(c.answer), c);
      FlushSends(u.WithAnswer(c.answer), c);
      DrainFills(WithFlush(u.WithAnswer(c.answer), c), room - |c.answer.out|);
    } else {
      EndGrows(u);
      EndSends(u);
      DrainFills(u.WithEnd(), room);
    }
  }

  lemma DrainFills(s: Stream, room: nat)
    requires s.Ready() >= 0
    ensures var t := s.Drain(room); t.Ready() == 0 || t.sent == s.sent + room
  {
    hide Render, Whole;
  }

  lemma EndSends(s: Stream)
    ensures s.WithEnd().sent == s.sent
  {
  }

  lemma FlushSends(s: Stream, c: Call)
    ensures WithFlush(s, c).sent == s.sent
  {
  }

  /** The bits that the card reports: its output, then the leftover bytes in both arrays. */
  lemma LeftoverBits(a: Answer, dyn: bool, k: nat)
    requires a.Valid() && k < a.onumbits <= (if dyn then 248 else 184)
    ensures var b := if k < 192 then a.obits[k / 8] else a.obitsExtra[k / 8 - 24];
            a.AllBits(dyn)[8 * |a.out| + k] == Bit(b, k % 8)
  {
    hide Bit;
  }

  /** Input that a call took. */
  ghost function Took(s: Stream, c: Call): nat
    requires Good(s) && Legal(s, c)
  {
    if Reaches(s, c) && Step(s, c).1 != StreamError then c.answer.inpProcessed else 0
  }

  ghost function TookAll(s: Stream, calls: seq<Call>): nat
    requires Good(s) && LegalRun(s, calls)
    decreases |calls|
  {
    if calls == [] then 0
    else if Step(s, calls[0]).1 != Ok then Took(s, calls[0])
    else
      StepKeepsGood(s, calls[0]);
      Took(s, calls[0]) + TookAll(Step(s, calls[0]).0, calls[1..])
  }

  /** The length that goes into the trailer is the input taken over the run. */
  lemma {:induction false} RunCountsInput(s: Stream, calls: seq<Call>)
    requires Good(s) && LegalRun(s, calls)
    ensures Run(s, calls).0.totalIn == s.totalIn + TookAll(s, calls)
    ensures Complete(Run(s, calls).0) ==>
              var t := Run(s, calls).0;
              t.segs[|t.segs| - 1] == Trail(t.format, t.crc, t.adler, s.totalIn + TookAll(s, calls))
    decreases |calls|
  {
    hide Grammar, MarkersApart, Render, Step, Legal, Reaches;
    if calls != [] {
      StepCountsInput(s, calls[0]);
      if Step(s, calls[0]).1 == Ok {
        StepKeepsGood(s, calls[0]);
        RunCountsInput(Step(s, calls[0]).0, calls[1..]);
      }
    }
    if Complete(Run(s, calls).0) {
      LastIsTrail(Run(s, calls).0);
    }
  }

  lemma LastIsTrail(s: Stream)
    requires Complete(s)
    ensures s.segs != [] && s.segs[|s.segs| - 1] == Trail(s.format, s.crc, s.adler, s.totalIn)
  {
    hide Render;
  }

  lemma StepCountsInput(s: Stream, c: Call)
    requires Good(s) && Legal(s, c)
    ensures Step(s, c).0.totalIn == s.totalIn + Took(s, c)
  {
    hide Grammar, MarkersApart, Render, Whole, Legal, Step, Reaches, AtRequest, Room, NewHeader, HeadAccepted;
    if s.HeaderRefused() {
      RefusedOutcome(s, c);
    } else if Reaches(s, c) {
      CardOutcome(s, c);
      if Step(s, c).1 == StreamError {
        RefusedAnswerCounts(s, c);
      }
    } else {
      QuietOutcome(s, c);
    }
  }

  lemma RefusedAnswerCounts(s: Stream, c: Call)
    requires Good(s) && Legal(s, c) && Reaches(s, c) && Step(s, c).1 == StreamError
    ensures Step(s, c).0.totalIn == s.totalIn
  {
    hide Render, Grammar, MarkersApart, Of, Whole, AtRequest, Room, Answer.AllBits;
    HeaderGrows(s, c);
    AtRequestIs(s, c);
  }
}
