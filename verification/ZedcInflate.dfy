/** The order of events in zedc_inflate: pending output, header, card, trailer (lib/inflate.c). */
module ZedcInflate {
  import opened Bits
  import opened Words
  import opened Framing
  import opened HeaderSpec
  import opened HeaderProofs
  import opened HeaderParser
  import InflateSpec
  import Area = Inflate

  datatype Code = COk | CStreamEnd | CNeedDict | CStreamError | CDataError | CGzipHdr

  /** What one request leaves behind: input bytes used, output stored, then the output that did not fit, which is the
      end of the new dictionary; scratchBits is what is kept of the input. */
  datatype CardResult =
    | Fault
    | WantsDict
    | Complete(used: nat, out: seq<byte>, dict: seq<byte>, unstored: nat, scratchBits: nat, finalEob: bool, crc: bv32,
               adler: bv32)

  /** The output of a request: what was stored, and then the end of the dictionary that was not. */
  function OutputOf(r: CardResult): seq<byte> {
    match r
    case Complete(_, out, dict, unstored, _, _, _, _) => out + LastBytes(dict, unstored)
    case _ => []
  }

  function LastBytes(dict: seq<byte>, n: nat): seq<byte> {
    if n <= |dict| then dict[|dict| - n..] else []
  }

  class Session {
    const p: ParserState      // with the caller's input
    var dict: seq<byte>       // dict_len bytes at out_dict_offs of the current page
    var obytesInDict: nat
    var scratchBits: nat
    var finalEob: bool
    var eobSeen: bool
    var availOut: nat
    var output: seq<byte>     // all bytes written at next_out so far
    // history: bytes the card produced, requests, and calls that refused the trailer
    ghost var produced: seq<byte>
    ghost var asked: nat
    ghost var refusals: nat

    constructor (p: ParserState)
      requires p.Valid() && p.headerState == Start && p.postfxIdx == 0
      ensures Valid() && this.p == p && output == [] && produced == [] && asked == 0 && refusals == 0
    {
      hide Session.TrailerCounted;
      this.p := p;
      dict, obytesInDict, scratchBits, finalEob, eobSeen, availOut, output := [], 0, 0, false, false, 0, [];
      produced, asked, refusals := [], 0, 0;
      new;
      NothingCollected();
    }

    /** Output at the end of the dictionary that the caller has not got yet. */
    ghost function Pending(): seq<byte>
      reads this`dict, this`obytesInDict
    {
      LastBytes(dict, obytesInDict)
    }

    ghost predicate OutputKept()
      reads this
    {
      produced == output + Pending()
    }

    /** The calls that were refused are the comparisons that failed. */
    ghost predicate TrailerCounted()
      requires p.postfx.Length == ZEDC_FORMAT_STORAGE && p.postfxIdx <= ZEDC_FORMAT_STORAGE
      reads this`refusals, p`postfxIdx, p`crc32, p`adler32, p.postfx
    {
      refusals == Refusals(p.format, p.Got(), p.crc32, p.adler32)
    }

    ghost predicate Valid()
      reads this, p, p.postfx
    {
      && p.Valid()
      && OutputKept()
      && (p.format != Defl && p.headerState != HeadDone ==> scratchBits == 0 && !finalEob && !eobSeen)
      && (finalEob || eobSeen || p.postfxIdx == 0)
      && TrailerCounted()
    }

    static lemma NextByte(was: seq<byte>, dict: seq<byte>, base: nat, pdict: nat)
      requires base <= pdict < |dict|
      ensures was + dict[base..pdict + 1] == was + dict[base..pdict] + [dict[pdict]]
    {
    }

    static lemma Given(was: seq<byte>, dict: seq<byte>, base: nat, pdict: nat)
      requires base <= pdict <= |dict|
      ensures dict[base..] == dict[base..pdict] + dict[pdict..]
      ensures was + dict[base..] == (was + dict[base..pdict]) + dict[pdict..] && was <= was + dict[base..pdict]
    {
    }

    lemma StillPending()
      requires OutputKept() && obytesInDict <= |dict|
      ensures produced == output + dict[|dict| - obytesInDict..]
    {
    }

    lemma Delivered(was: seq<byte>, base: nat)
      requires base + obytesInDict <= |dict| && produced == was + dict[base..]
      requires output == was + dict[base..|dict| - obytesInDict]
      ensures OutputKept() && |Pending()| == obytesInDict && was <= output
    {
      Given(was, dict, base, |dict| - obytesInDict);
    }

    lemma NothingCollected()
      requires p.Valid() && p.postfxIdx == 0
      ensures TrailerCounted() <==> refusals == 0
    {
    }

    /** The trailer carries the checksum the card computed. */
    ghost predicate ChecksumMatches()
      requires p.postfx.Length == ZEDC_FORMAT_STORAGE && p.postfxIdx <= ZEDC_FORMAT_STORAGE
      reads p`postfxIdx, p`crc32, p`adler32, p.postfx
    {
      |p.Got()| == TrailLen(p.format) && Carries(p.format, p.Got(), p.crc32, p.adler32)
    }

    /** What a complete trailer has been refused. */
    ghost function RefusalsDue(): nat
      requires p.postfx.Length == ZEDC_FORMAT_STORAGE && p.postfxIdx <= ZEDC_FORMAT_STORAGE
      reads p`postfxIdx, p`crc32, p`adler32, p.postfx
    {
      if ChecksumMatches() then 0 else if p.format == Gzip then 2 else 1
    }

    lemma CompleteTrailer()
      requires p.Valid() && |p.Got()| == TrailLen(p.format) && TrailerCounted()
      ensures refusals == RefusalsDue()
    {
      hide Refusals, Carries;
      CompleteRefusals(p.format, p.Got(), p.crc32, p.adler32);
    }

    /** inflate_flush_output_buffer. */
    method FlushOutputBuffer() returns (ok: bool)
      requires OutputKept()
      modifies this`obytesInDict, this`availOut, this`output
      ensures OutputKept() && (ok <==> old(obytesInDict) <= |dict|)
      ensures ok ==> |Pending()| == obytesInDict && (obytesInDict == 0 || availOut == 0)
      ensures old(obytesInDict) - obytesInDict == old(availOut) - availOut
      ensures !ok ==> obytesInDict == old(obytesInDict)
      ensures old(output) <= output && |output| - |old(output)| == old(availOut) - availOut
    {
      if obytesInDict == 0 {
        return true;
      }
      if |dict| < obytesInDict {
        return false;
      }
      var pdict := |dict| - obytesInDict;
      ghost var base, was := pdict, output;
      StillPending();
      hide OutputKept, Pending;
      while availOut > 0 && obytesInDict > 0
        invariant base <= pdict == |dict| - obytesInDict && pdict - base == old(availOut) - availOut
        invariant output == was + dict[base..pdict]
        invariant old(obytesInDict) - obytesInDict == old(availOut) - availOut
        decreases obytesInDict
      {
        NextByte(was, dict, base, pdict);
        output := output + [dict[pdict]];
        pdict := pdict + 1;
        availOut := availOut - 1;
        obytesInDict := obytesInDict - 1;
      }
      Delivered(was, base);
      return true;
    }

    /** zedc_read_pending_output: up to len bytes for a buffer of the wrapper. */
    method ReadPendingOutput(len: nat) returns (ok: bool, buf: seq<byte>)
      requires OutputKept()
      modifies this`obytesInDict
      ensures ok <==> old(obytesInDict) <= |dict|
      ensures ok ==> |buf| == Min(len, old(obytesInDict)) && old(Pending()) == buf + Pending()
      ensures !ok ==> buf == [] && obytesInDict == old(obytesInDict)
    {
      buf := [];
      if obytesInDict == 0 {
        return true, [];
      }
      if |dict| < obytesInDict {
        return false, [];
      }
      var pdict, left := |dict| - obytesInDict, len;
      ghost var base := pdict;
      while left > 0 && obytesInDict > 0
        invariant base <= pdict == |dict| - obytesInDict && pdict - base == len - left
        invariant buf == dict[base..pdict]
        decreases left
      {
        NextByte([], dict, base, pdict);
        buf := buf + [dict[pdict]];
        pdict := pdict + 1;
        obytesInDict := obytesInDict - 1;
        left := left - 1;
      }
      Given([], dict, base, pdict);
      return true, buf;
    }

    /** The answer's fields, and its output if it is not longer than the space for it. */
    method TakeAnswer(r: CardResult) returns (ok: bool)
      requires r.Complete? && produced == output
      modifies this`dict, this`obytesInDict, this`scratchBits, this`finalEob, this`output, this`availOut, this`produced
      ensures ok <==> |r.out| <= old(availOut)
      ensures finalEob == r.finalEob && scratchBits == r.scratchBits && obytesInDict == r.unstored
      ensures output == old(output) + (if ok then r.out else [])
              && availOut == old(availOut) - (|output| - |old(output)|)
      ensures ok ==> OutputKept() && produced == old(produced) + OutputOf(r)
    {
      dict := r.dict;
      obytesInDict := r.unstored;
      scratchBits := r.scratchBits;
      finalEob := r.finalEob;
      if |r.out| > availOut {
        return false;
      }
      Regroup(produced, r.out, Pending());
      output := output + r.out;
      availOut := availOut - |r.out|;
      produced := produced + OutputOf(r);
      return true;
    }

    /** One successful or failed request. What it requires is when the library asks the card for more. */
    method Request(r: CardResult) returns (code: Code)
      requires Valid() && !eobSeen && !finalEob
      requires obytesInDict == 0 && availOut > 0 && (p.format == Defl || p.headerState == HeadDone)
      modifies this, p`crc32, p`adler32, p`nextIn, p`totalIn
      ensures code == CStreamError || Valid()
      ensures old(output) <= output && |output| - |old(output)| == old(availOut) - availOut
      ensures asked == old(asked) + 1 && refusals == old(refusals) && eobSeen == old(eobSeen)
      ensures code == COk || code == CNeedDict || code == CStreamError
      ensures code == CNeedDict <==> r.WantsDict?
      ensures code == COk <==> r.Complete? && |r.out| <= old(availOut) && r.used <= |old(p.nextIn)|
      ensures code != CStreamError ==> produced == old(produced) + OutputOf(r)
      ensures code == COk ==> p.nextIn == old(p.nextIn)[r.used..] && p.crc32 == r.crc && p.adler32 == r.adler
      ensures code == COk ==> finalEob == r.finalEob && scratchBits == r.scratchBits && obytesInDict == r.unstored
      ensures code == COk ==> output == old(output) + r.out
    {
      hide TrailLen, Session.TrailerCounted, ParserState.Valid;
      NothingCollected();
      assert produced == output + [] == output;
      asked := asked + 1;
      if r.WantsDict? {
        p.SetChecksums(p.crc32, p.dictAdler32);
        NothingCollected();
        return CNeedDict;
      }
      if r.Fault? {
        return CStreamError;
      }
      p.SetChecksums(r.crc, r.adler);
      NothingCollected();
      var ok := TakeAnswer(r);
      if !ok {
        return CStreamError;
      }
      NothingCollected();
      if r.used > |p.nextIn| {
        return CStreamError;
      }
      p.StepOver(r.used);
      return COk;
    }

    /** A request together with the area it works on: both see the same input and output space, and afterwards the
        area holds what is kept of the input that the session has stepped over. */
    method RequestWithArea(area: Area.InflateStream, a: InflateSpec.Answer, out: seq<byte>, unsaved: CardResult)
      returns (code: Code)
      requires Valid() && !eobSeen && !finalEob
      requires obytesInDict == 0 && availOut > 0 && (p.format == Defl || p.headerState == HeadDone)
      requires area.Layout() && area.input == p.nextIn && |area.input| <= 0xffff_ffff - 1023
               && area.availOut == availOut
      requires area.View().Sensible(a) && area.Fits(area.View(), a) && (!a.Ends() ==> area.View().StoredHeader(a))
      requires unsaved.Complete? && |out| == a.outpReturned
      modifies this, p`crc32, p`adler32, p`nextIn, p`totalIn, area, area.tree
      ensures code == CStreamError || (code == COk && Valid())
      ensures code == COk ==> p.nextIn == area.input && availOut == area.availOut && scratchBits == area.scratchBits
      ensures code == COk && !a.Ends() ==>
                area.Layout() && area.View() == InflateSpec.Next(old(area.View()), a, old(availOut) <= |out|)
      ensures code == COk && a.Ends() ==> finalEob && p.nextIn == InflateSpec.UnreadAtEnd(old(area.View()), a)
      ensures code == COk ==> produced == old(produced) + (out + LastBytes(unsaved.dict, unsaved.unstored))
    {
      hide InflateSpec.UnreadAtEnd, InflateSpec.Next, InflateSpec.Store.Sensible, InflateSpec.Store.StoredHeader, Bit,
           Session.TrailerCounted, LastBytes, InflateSpec.IsStoredHeader, InflateSpec.Store.CutsStored,
           Area.InflateStream.View, Area.InflateStream.ScratchIs, Area.InflateStream.Fits;
      var rc := area.Request(a);
      if rc != 0 {
        code := Request(CardResult.Fault);
        return;
      }
      code := Request(unsaved.(used := area.inpDataOffs, out := out, scratchBits := area.scratchBits,
                               finalEob := a.FinalEob()));
    }

    /** The trailer part of a call once the final block has ended. */
    method Finish() returns (code: Code)
      requires Valid() && eobSeen
      modifies this`refusals, p`nextIn, p`totalIn, p`postfxIdx, p`postfxLen, p.postfx
      ensures Valid() && refusals == old(refusals) + if code == CDataError then 1 else 0
      ensures var t := Take(p.format, old(p.Got()), p.crc32, p.adler32, old(p.nextIn));
              && p.Got() == t.0 && p.nextIn == old(p.nextIn)[t.1..] && code == EndCode(t.2, obytesInDict)
      ensures code == CStreamEnd ==> |p.Got()| == TrailLen(p.format) && refusals == RefusalsDue()
    {
      hide Refused, Refusals, Take, Session.RefusalsDue;
      TakeCounts(p.format, p.Got(), p.crc32, p.adler32, p.nextIn);
      var rc := p.RemTrailer();
      if rc == TrailError {
        refusals := refusals + 1;
        return CDataError;
      }
      if rc == TrailMore {
        return COk;
      }
      CompleteTrailer();
      if obytesInDict == 0 {
        return CStreamEnd;
      }
      return COk;
    }

    method RemoveHeader() returns (code: Code)
      requires Valid() && !eobSeen && !finalEob && p.headerState != HeadDone
      modifies p, p.prefx, p.extra, p.name, p.comment
      ensures Valid() && old(p.Model()).Valid()
      ensures p.format == Defl ==> code == COk && p.nextIn == old(p.nextIn)
      ensures p.format != Defl ==>
                var f := Feed(p.format, old(p.Model()), old(p.nextIn));
                && p.Model() == f.0 && p.nextIn == old(p.nextIn)[f.1..]
                && code == match f.2 case HdrError => CGzipHdr case NeedDict => CNeedDict case _ => COk
      ensures code == COk ==> p.format == Defl || p.headerState == HeadDone || p.nextIn == []
    {
      hide TrailLen, Feed, ParserState.Model, Session.TrailerCounted;
      NothingCollected();
      var rc := p.RemHeader();
      NothingCollected();
      if rc == ErrGzipHdr {
        return CGzipHdr;
      } else if rc == ZNeedDict {
        return CNeedDict;
      }
      return COk;
    }

    /** The part of a call from the request on. */
    method RequestAndFinish(r: CardResult) returns (code: Code)
      requires Valid() && !eobSeen && !finalEob
      requires obytesInDict == 0 && availOut > 0 && (p.format == Defl || p.headerState == HeadDone)
      modifies this, p`crc32, p`adler32, p`nextIn, p`totalIn, p`postfxIdx, p`postfxLen, p.postfx
      ensures code == CStreamError || Valid()
      ensures old(output) <= output && |output| - |old(output)| == old(availOut) - availOut
      ensures asked == old(asked) + 1 && (code != CStreamError ==> produced == old(produced) + OutputOf(r))
      ensures refusals == old(refusals) + if code == CDataError then 1 else 0
      ensures Answered(r, old(p.nextIn), old(availOut), code)
      ensures code == CStreamEnd ==> produced == output && eobSeen && |p.Got()| == TrailLen(p.format)
      ensures code == CStreamEnd ==> refusals == RefusalsDue()
    {
      hide Refusals, TrailLen, OutputOf, Take, Session.TrailerCounted, Session.RefusalsDue;
      assert p.Got() == [];
      code := Request(r);
      assert p.Got() == [];
      if code != COk {
        return;
      }
      if finalEob {
        eobSeen := true;
      }
      if eobSeen {
        code := Finish();
      }
    }

    /** What a call that asks the card makes of the answer: input and room are what the card was offered. */
    ghost predicate Answered(r: CardResult, input: seq<byte>, room: nat, code: Code)
      reads this`eobSeen, p`nextIn
    {
      match r
      case WantsDict => code == CNeedDict
      case Fault => code == CStreamError
      case Complete(used, out, _, unstored, _, final, crc, adler) =>
        if |out| > room || used > |input| then code == CStreamError
        else if !final then code == COk && p.nextIn == input[used..]
        else
          var t := Take(p.format, [], crc, adler, input[used..]);
          eobSeen && p.nextIn == input[used..][t.1..] && code == EndCode(t.2, unstored)
    }

    /** The verdict of the header parser when a call reaches it, and the input it leaves. */
    ghost function HeaderPart(): (HdrRc, seq<byte>)
      requires p.Model().Valid()
      reads p, p.prefx, p.extra, p.name, p.comment
    {
      if p.format == Defl || p.headerState == HeadDone then (HdrOk, p.nextIn)
      else
        var f := Feed(p.format, p.Model(), p.nextIn);
        (f.2, p.nextIn[f.1..])
    }

    lemma NoHeaderLeft()
      requires p.Model().Valid()
      ensures p.format == Defl || p.headerState == HeadDone ==> HeaderPart() == (HdrOk, p.nextIn)
    {
      hide Feed;
    }

    /** Output space is left behind what is pending, and the final block has not ended. */
    ghost predicate GetsOn()
      reads this`obytesInDict, this`dict, this`availOut, this`eobSeen, this`finalEob
    {
      obytesInDict <= |dict| && obytesInDict < availOut && !eobSeen && !finalEob
    }

    /** The header is not in the way, and there is something to decompress. */
    ghost predicate AsksCard()
      requires p.Model().Valid()
      reads this`obytesInDict, this`dict, this`availOut, this`eobSeen, this`finalEob, this`scratchBits
      reads p, p.prefx, p.extra, p.name, p.comment
    {
      && GetsOn() && (HeaderPart().0 == HdrOk || HeaderPart().0 == NeedMore)
      && (HeaderPart().1 != [] || scratchBits != 0)
    }

    lemma HeaderLeft()
      requires p.Valid()
      ensures p.Model().Valid()
    {
      hide Feed, TrailLen;
    }

    /** zedc_inflate, with the outcome the request would have if one is made. */
    method Inflate(r: CardResult) returns (code: Code)
      requires Valid()
      modifies this, p, p.prefx, p.extra, p.name, p.comment, p.postfx
      ensures code == CStreamError || Valid()
      ensures old(output) <= output && |output| - |old(output)| == old(availOut) - availOut
      ensures old(p.Model()).Valid() && asked == old(asked) + if old(AsksCard()) then 1 else 0
      ensures code != CStreamError ==> produced == old(produced) + if asked > old(asked) then OutputOf(r) else []
      ensures old(obytesInDict) > |old(dict)| ==> code == CStreamError
      ensures old(obytesInDict) <= |old(dict)| && old(eobSeen || finalEob) ==>
                var t := Take(p.format, old(p.Got()), old(p.crc32), old(p.adler32), old(p.nextIn));
                p.nextIn == old(p.nextIn)[t.1..] && code == EndCode(t.2, obytesInDict)
      ensures old(obytesInDict) <= |old(dict)| && !old(eobSeen || finalEob) && old(availOut <= obytesInDict) ==>
                code == COk && p.nextIn == old(p.nextIn)
      ensures old(GetsOn() && !AsksCard()) ==>
                code == match old(HeaderPart().0) case HdrError => CGzipHdr case NeedDict => CNeedDict case _ => COk
      ensures old(AsksCard()) ==> Answered(r, old(HeaderPart().1), old(availOut - obytesInDict), code)
      ensures refusals == old(refusals) + if code == CDataError then 1 else 0
      ensures code == CStreamEnd ==> produced == output && eobSeen && |p.Got()| == TrailLen(p.format)
      ensures code == CStreamEnd ==> refusals == RefusalsDue()
      ensures asked > old(asked) ==> p.format == Defl || p.headerState == HeadDone
      ensures code == COk && asked == old(asked) ==> eobSeen || availOut == 0 || (p.nextIn == [] && scratchBits == 0)
      ensures
        var behindHeader := p.format == Defl || old(p.headerState) == HeadDone;
        var goesOn := old(!eobSeen && !finalEob && obytesInDict <= |dict| && availOut > obytesInDict);
        behindHeader && goesOn && old(p.nextIn != [] || scratchBits != 0) ==> asked == old(asked) + 1
    {
      hide Refusals, TrailLen, OutputOf, Take, Feed, Session.TrailerCounted, Session.RefusalsDue, Session.Answered,
           Session.HeaderPart, ParserState.Model;
      HeaderLeft();
      NoHeaderLeft();
      assert produced == produced + [];
      var done;
      done, code := FlushAndEnd();
      if done {
        return;
      }
      ghost var out := output;
      code := HeaderAndRequest(r);
      Extends(old(output), out, output);
    }

    /** Pending output, and the trailer if the final block has ended; done says whether the call ends here. */
    method FlushAndEnd() returns (done: bool, code: Code)
      requires Valid()
      modifies this`obytesInDict, this`availOut, this`output, this`eobSeen, this`refusals
      modifies p`nextIn, p`totalIn, p`postfxIdx, p`postfxLen, p.postfx
      ensures code == CStreamError || Valid()
      ensures old(output) <= output && |output| - |old(output)| == old(availOut) - availOut
      ensures (done <==> !old(GetsOn())) && (done && code == COk ==> eobSeen || availOut == 0)
      ensures !done ==>
                && !eobSeen && obytesInDict == 0 && availOut == old(availOut) - old(obytesInDict)
                && old(p.Model()).Valid() && p.Model() == old(p.Model()) && HeaderPart() == old(HeaderPart())
      ensures old(obytesInDict) > |old(dict)| ==> code == CStreamError
      ensures old(obytesInDict) <= |old(dict)| && old(eobSeen || finalEob) ==>
                var t := Take(p.format, old(p.Got()), p.crc32, p.adler32, old(p.nextIn));
                p.nextIn == old(p.nextIn)[t.1..] && code == EndCode(t.2, obytesInDict)
      ensures old(obytesInDict) <= |old(dict)| && !old(eobSeen || finalEob) ==> code == COk && p.nextIn == old(p.nextIn)
      ensures refusals == old(refusals) + if code == CDataError then 1 else 0
      ensures code == CStreamEnd ==> produced == output && eobSeen && |p.Got()| == TrailLen(p.format)
      ensures code == CStreamEnd ==> refusals == RefusalsDue()
    {
      hide Refusals, TrailLen, Take, Feed, Session.TrailerCounted, Session.RefusalsDue;
      HeaderLeft();
      var ok := FlushOutputBuffer();
      if !ok {
        return true, CStreamError;
      }
      if finalEob {
        eobSeen := true;
      }
      if eobSeen {
        code := Finish();
        return true, code;
      }
      return availOut == 0, COk;
    }

    /** The part of a call behind the pending output, when the data go on. */
    method HeaderAndRequest(r: CardResult) returns (code: Code)
      requires Valid() && !eobSeen && !finalEob && obytesInDict == 0 && availOut > 0
      modifies this, p, p.prefx, p.extra, p.name, p.comment, p.postfx
      ensures code == CStreamError || Valid()
      ensures old(output) <= output && |output| - |old(output)| == old(availOut) - availOut
      ensures old(p.Model()).Valid() && asked == old(asked) + if old(AsksCard()) then 1 else 0
      ensures code != CStreamError ==> produced == old(produced) + if asked > old(asked) then OutputOf(r) else []
      ensures !old(AsksCard()) ==>
                code == match old(HeaderPart().0) case HdrError => CGzipHdr case NeedDict => CNeedDict case _ => COk
      ensures old(AsksCard()) ==> Answered(r, old(HeaderPart().1), old(availOut), code)
      ensures refusals == old(refusals) + if code == CDataError then 1 else 0
      ensures code == CStreamEnd ==> produced == output && eobSeen && |p.Got()| == TrailLen(p.format)
      ensures code == CStreamEnd ==> refusals == RefusalsDue()
      ensures asked > old(asked) ==> p.format == Defl || p.headerState == HeadDone
      ensures code == COk && asked == old(asked) ==> eobSeen || availOut == 0 || (p.nextIn == [] && scratchBits == 0)
    {
      hide Refusals, TrailLen, OutputOf, Take, Feed, Session.TrailerCounted, Session.RefusalsDue, Session.Answered;
      HeaderLeft();
      assert produced == produced + [];
      if p.headerState != HeadDone {
        code := RemoveHeader();
        if code != COk {
          return;
        }
      }
      if p.nextIn == [] && scratchBits == 0 {
        return COk;
      }
      code := RequestAndFinish(r);
    }
  }

  /** The code at the end of the data: the verdict on the trailer, and whether output is still pending. */
  function EndCode(trailer: TrailRc, pending: nat): Code {
    match trailer
    case TrailError => CDataError
    case TrailMore => COk
    case TrailOk => if pending == 0 then CStreamEnd else COk
  }
}
