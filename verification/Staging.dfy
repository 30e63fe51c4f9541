/** The buffers between the zlib interface and the card library (lib/hardware.c). */
module Staging {
  import opened Bits
  import opened DeflateSpec
  import opened Words

  datatype ZRc = ZOk | ZStreamEnd | ZNeedDict | ZStreamError | ZDataError | ZBufError

  /** One run of the card: the input it absorbed and the input it left, its flush mode, what the caller still had to
      offer at that time, the output it gave, and its code. */
  datatype Request = Request(absorbed: seq<byte>, refused: seq<byte>, flush: Flush, waiting: nat, out: seq<byte>,
    code: ZRc)

  /** All input that went into the card. */
  ghost function Inputs(rs: seq<Request>): seq<byte> {
    if rs == [] then [] else Inputs(rs[..|rs| - 1]) + rs[|rs| - 1].absorbed
  }

  /** All output that came out of the card. */
  ghost function Outputs(rs: seq<Request>): seq<byte> {
    if rs == [] then [] else Outputs(rs[..|rs| - 1]) + rs[|rs| - 1].out
  }

  lemma Logged(rs: seq<Request>, r: Request)
    ensures Inputs(rs + [r]) == Inputs(rs) + r.absorbed && Outputs(rs + [r]) == Outputs(rs) + r.out
  {
    assert (rs + [r])[..|rs|] == rs;
  }

  /** The log rs goes on with one run on the given input, mode and rest of the caller. */
  ghost predicate OneMore(before: seq<Request>, rs: seq<Request>, input: seq<byte>, flush: Flush, waiting: nat) {
    && |rs| == |before| + 1 && before <= rs
    && rs[|before|].absorbed + rs[|before|].refused == input
    && rs[|before|].flush == flush && rs[|before|].waiting == waiting
  }

  class HwState {
    const ibufBase: array<byte>
    const obufBase: array<byte>
    // positions in the buffers
    var ibuf: nat
    var ibufAvail: nat
    var obuf: nat
    var obufAvail: nat
    var obufNext: nat
    var rc: ZRc
    var pending: nat         // bytes the card library still holds
    // the caller's stream: avail_in bytes at next_in, output space, and all output written so far
    var nextIn: seq<byte>
    var availOut: nat
    var output: seq<byte>
    // history: input taken from the caller, and the log of the card
    ghost var taken: seq<byte>
    ghost var requests: seq<Request>

    ghost predicate Shape()
      reads this
    {
      && ibufBase != obufBase
      && ibuf + ibufAvail == ibufBase.Length
      && obufNext <= obuf <= obufBase.Length
      && obufAvail + (obuf - obufNext) == obufBase.Length
    }

    ghost function Ibuf(): seq<byte>
      requires Shape()
      reads this, ibufBase
    {
      ibufBase[..ibuf]
    }

    ghost function Obuf(): seq<byte>
      requires Shape()
      reads this, obufBase
    {
      obufBase[obufNext..obuf]
    }

    /** The caller's output and the staged output are what came out of the card, in order. */
    ghost predicate OutputKept()
      reads this, obufBase
    {
      Shape() && Outputs(requests) == output + Obuf()
    }

    /** The input taken from the caller is what went into the card and then what is staged, in order. */
    ghost predicate InputKept()
      reads this, ibufBase
    {
      Shape() && taken == Inputs(requests) + Ibuf()
    }

    ghost predicate Valid()
      reads this, ibufBase, obufBase
    {
      Shape() && InputKept() && OutputKept()
    }

    constructor (ibufTotal: nat, obufTotal: nat)
      ensures Valid() && taken == [] && output == [] && requests == []
      ensures ibufBase.Length == ibufTotal && obufBase.Length == obufTotal
    {
      ibufBase := new byte[ibufTotal];
      obufBase := new byte[obufTotal];
      ibuf, ibufAvail, obuf, obufAvail, obufNext, rc, pending := 0, ibufTotal, 0, obufTotal, 0, ZOk, 0;
      nextIn, availOut, output := [], 0, [];
      taken, requests := [], [];
    }

    predicate OutputBufferEmpty()
      reads this
    {
      obufAvail == obufBase.Length
    }

    /** h_read_ibuf: as much of the caller's input as fits. */
    method ReadIbuf()
      requires InputKept()
      modifies this`ibuf, this`ibufAvail, this`nextIn, this`taken, ibufBase
      ensures InputKept() && taken + nextIn == old(taken + nextIn) && old(taken) <= taken
      ensures |nextIn| == |old(nextIn)| - Min(|old(nextIn)|, old(ibufAvail))
      ensures ibufAvail == old(ibufAvail) - Min(|old(nextIn)|, old(ibufAvail))
    {
      hide Inputs;
      if ibufAvail == 0 || nextIn == [] {
        return;
      }
      var tocopy := Min(|nextIn|, ibufAvail);
      ghost var piece := nextIn[..tocopy];
      CopyIn(tocopy);
      ibufAvail := ibufAvail - tocopy;
      ibuf := ibuf + tocopy;
      assert nextIn == piece + nextIn[tocopy..];
      taken := taken + piece;
      nextIn := nextIn[tocopy..];
    }

    /** The caller's next bytes go behind the collected ones. */
    method CopyIn(n: nat)
      requires Shape() && n <= ibufAvail && n <= |nextIn|
      modifies ibufBase
      ensures ibufBase[..ibuf + n] == old(Ibuf()) + nextIn[..n]
    {
      forall i | 0 <= i < n {
        ibufBase[ibuf + i] := nextIn[i];
      }
      assert ibufBase[..ibuf] == old(Ibuf()) && ibufBase[ibuf..ibuf + n] == nextIn[..n];
    }

    /** h_flush_obuf: as much of the staged output as the caller has room for. */
    method FlushObuf() returns (left: nat)
      requires OutputKept()
      modifies this`obufNext, this`obufAvail, this`availOut, this`output
      ensures OutputKept() && left == |Obuf()|
      ensures old(output) <= output && |output| - |old(output)| == old(availOut) - availOut
      ensures |output| - |old(output)| == Min(old(availOut), |old(Obuf())|)
      ensures old(Obuf()) == output[|old(output)|..] + Obuf()
      ensures availOut > 0 ==> Obuf() == []
    {
      left := obuf - obufNext;
      if availOut == 0 {
        return;
      }
      if left == 0 {
        return;
      }
      var tocopy := Min(availOut, left);
      ghost var all := Obuf();
      var piece := obufBase[obufNext..obufNext + tocopy];
      output := output + piece;
      obufNext := obufNext + tocopy;
      obufAvail := obufAvail + tocopy;
      assert all == piece + Obuf();
      left := obuf - obufNext;
      availOut := availOut - tocopy;
    }

    /** The compressor or decompressor: any amount of the input, any output that fits, any code. It keeps the log. */
    method Card(input: seq<byte>, flush: Flush, waiting: nat, space: nat)
      returns (used: nat, out: seq<byte>, code: ZRc)
      modifies this`requests
      ensures used <= |input| && |out| <= space
      ensures requests == old(requests) + [Request(input[..used], input[used..], flush, waiting, out, code)]
    {
      used, out, code := *, *, *;
      if used > |input| {
        used := |input|;
      }
      if |out| > space {
        out := out[..space];
      }
      requests := requests + [Request(input[..used], input[used..], flush, waiting, out, code)];
    }

    /** The card's output goes to the start of the empty buffer. */
    method StoreOutput(out: seq<byte>)
      requires Shape() && Obuf() == [] && |out| <= obufBase.Length
      modifies this`obuf, this`obufAvail, this`obufNext, obufBase
      ensures Shape() && Obuf() == out
    {
      obufNext := 0;
      forall i | 0 <= i < |out| {
        obufBase[i] := out[i];
      }
      obuf := |out|;
      obufAvail := obufBase.Length - |out|;
      assert Obuf() == out;
    }

    /** The part of a pass that starts the card; a real flush mode is passed on only if the caller has no more input.
        If the card leaves input, what was staged stays where it is. */
    method Send(flush: Flush) returns (ok: bool)
      requires Valid() && Obuf() == [] && ibufBase.Length > 0
      modifies this`ibuf, this`ibufAvail, this`obuf, this`obufAvail, this`obufNext, this`rc, this`requests, obufBase
      ensures OutputKept()
      ensures OneMore(old(requests), requests, old(Ibuf()), if nextIn != [] then NoFlush else flush, |nextIn|)
      ensures ok <==> requests[|old(requests)|].refused == []
      ensures rc == requests[|old(requests)|].code
      ensures ok ==> Valid() && Ibuf() == [] && ibufAvail == ibufBase.Length
      ensures !ok ==> Ibuf() == old(Ibuf())
    {
      var mode := if nextIn != [] then NoFlush else flush;
      hide Inputs, Outputs;
      ghost var before, staged := requests, Ibuf();
      var used, out, code := Card(ibufBase[..ibuf], mode, |nextIn|, obufBase.Length);
      Logged(before, requests[|before|]);
      assert staged[..used] + staged[used..] == staged;
      rc := code;
      StoreOutput(out);
      if used == ibuf {
        ibuf, ibufAvail := 0, ibufBase.Length;
      } else {
        return false;
      }
      return true;
    }

    /** A run of the card on the caller's input. */
    method Feed(flush: Flush, space: nat) returns (out: seq<byte>, code: ZRc)
      requires InputKept() && ibufBase.Length == 0
      modifies this`requests, this`taken, this`nextIn
      ensures InputKept() && taken + nextIn == old(taken + nextIn)
      ensures |out| <= space && Outputs(requests) == Outputs(old(requests)) + out
      ensures OneMore(old(requests), requests, old(nextIn), flush, 0)
      ensures nextIn == requests[|old(requests)|].refused && code == requests[|old(requests)|].code
    {
      hide Inputs, Outputs;
      ghost var before := requests;
      var used;
      used, out, code := Card(nextIn, flush, 0, space);
      ghost var r := requests[|before|];
      Logged(before, r);
      assert nextIn == r.absorbed + r.refused && Inputs(before) + Ibuf() == Inputs(before);
      Regroup(taken, r.absorbed, r.refused);
      taken := taken + r.absorbed;
      nextIn := nextIn[used..];
      assert Inputs(requests) + Ibuf() == Inputs(requests);
    }

    /** Buffering disabled: the card works on the caller's buffers. */
    method Direct(flush: Flush) returns (code: ZRc)
      requires Valid() && ibufBase.Length == 0 && obufBase.Length == 0
      modifies this
      ensures Valid() && taken + nextIn == old(taken + nextIn) && code == rc
      ensures old(output) <= output && |output| - |old(output)| == old(availOut) - availOut
      ensures OneMore(old(requests), requests, old(nextIn), flush, 0)
      ensures nextIn == requests[|old(requests)|].refused && code == requests[|old(requests)|].code
    {
      hide Inputs, Outputs, OneMore;
      var out, c := Feed(flush, availOut);
      rc := c;
      output := output + out;
      availOut := availOut - |out|;
      return rc;
    }

    /** The log goes on and keeps the rule: a real flush mode comes last, when the caller has nothing more to offer. */
    static ghost predicate Ordered(before: seq<Request>, rs: seq<Request>, flush: Flush) {
      && before <= rs
      && forall k | |before| <= k < |rs| ::
           if rs[k].waiting > 0 then rs[k].flush == NoFlush else rs[k].flush == flush
    }

    /** The body of the h_deflate loop; code says with what the call ends, if it ends here. */
    method DeflatePass(flush: Flush) returns (code: Option<ZRc>)
      requires Valid() && ibufBase.Length > 0
      modifies this, ibufBase, obufBase
      ensures Shape() && OutputKept() && (code != Some(ZStreamError) ==> Valid())
      ensures taken + nextIn == old(taken + nextIn) && |nextIn| <= |old(nextIn)|
      ensures old(output) <= output && |output| - |old(output)| == old(availOut) - availOut
      ensures requests == old(requests) || (|requests| == |old(requests)| + 1 && old(requests) <= requests
                && requests[|old(requests)|].waiting == |nextIn|
                && requests[|old(requests)|].flush == if nextIn != [] then NoFlush else flush)
      ensures requests != old(requests) <==>
                old(availOut) > |old(Obuf())| && (flush != NoFlush || |old(nextIn)| >= old(ibufAvail))
      ensures rc == if requests == old(requests) then old(rc) else requests[|old(requests)|].code
      ensures code == Some(ZStreamError) <==> requests != old(requests) && requests[|old(requests)|].refused != []
      ensures code.Some? ==> code.value == ZOk || code.value == ZStreamEnd || code.value == ZStreamError
      ensures code == Some(ZOk) <==> availOut == 0 && code != Some(ZStreamError)
      ensures code == Some(ZStreamEnd) <==> code != Some(ZStreamError) && availOut > 0 && flush == Finish
                                            && rc == ZStreamEnd && nextIn == [] && Ibuf() == []
      ensures code == Some(ZStreamEnd) ==> Obuf() == []
      ensures code.None? && flush != NoFlush ==> requests != old(requests)
      ensures code.None? && nextIn != [] ==>
                |nextIn| < |old(nextIn)| || (old(ibufAvail) == 0 && ibufAvail > 0)
    {
      hide Inputs, Outputs;
      ReadIbuf();
      var left := FlushObuf();
      if availOut == 0 {
        return Some(ZOk);
      }
      if flush != NoFlush || ibufAvail == 0 {
        var ok := Send(flush);
        if !ok {
          return Some(ZStreamError);
        }
      }
      left := FlushObuf();
      if availOut == 0 {
        return Some(ZOk);
      }
      var ibufBytes := ibuf;
      var obufBytes := obuf - obufNext;
      if flush == Finish && rc == ZStreamEnd && nextIn == [] && ibufBytes == 0 && obufBytes == 0 {
        return Some(ZStreamEnd);
      }
      return None;
    }

    /** h_deflate. An input buffer comes with an output buffer. */
    method Deflate(flush: Flush) returns (code: ZRc)
      requires Valid() && (ibufBase.Length == 0 ==> obufBase.Length == 0)
      modifies this, ibufBase, obufBase
      ensures OutputKept() && (ibufBase.Length == 0 || code != ZStreamError ==> Valid())
      ensures taken + nextIn == old(taken + nextIn)
      ensures old(output) <= output && |output| - |old(output)| == old(availOut) - availOut
      ensures Ordered(old(requests), requests, flush)
      ensures ibufBase.Length > 0 && code == ZOk ==> availOut == 0 || nextIn == []
      ensures ibufBase.Length > 0 ==>
                (code == ZStreamEnd <==> code != ZStreamError && availOut > 0 && flush == Finish && rc == ZStreamEnd
                                         && nextIn == [] && Ibuf() == [])
      ensures ibufBase.Length > 0 && code == ZStreamEnd ==> Obuf() == []
      ensures ibufBase.Length > 0 ==>
                (code == ZStreamError <==> requests != old(requests) && requests[|requests| - 1].refused != [])
      ensures ibufBase.Length > 0 ==> code == ZOk || code == ZStreamEnd || code == ZStreamError
      ensures rc == if requests == old(requests) then old(rc) else requests[|requests| - 1].code
      ensures ibufBase.Length == 0 ==> requests != old(requests) && code == requests[|requests| - 1].code
      ensures ibufBase.Length > 0 && code == ZOk && availOut > 0 && flush != NoFlush ==>
                |requests| > |old(requests)| && requests[|requests| - 1].flush == flush
    {
      hide Inputs, Outputs, Ordered;
      NoRequests(requests, flush);
      if ibufBase.Length == 0 {
        code := Direct(flush);
        MoreRequests(old(requests), old(requests), requests, flush);
        return;
      }
      var again := true;
      while again
        invariant Valid()
        invariant taken + nextIn == old(taken + nextIn)
        invariant old(output) <= output && |output| - |old(output)| == old(availOut) - availOut
        invariant Ordered(old(requests), requests, flush)
        invariant requests == old(requests) || |requests| > |old(requests)|
        invariant rc == if requests == old(requests) then old(rc) else requests[|requests| - 1].code
        invariant requests == old(requests) || requests[|requests| - 1].refused == []
        invariant !again ==> nextIn == [] && availOut > 0
        invariant !again ==> !(flush == Finish && rc == ZStreamEnd && Ibuf() == [])
        invariant !again && flush != NoFlush ==> |requests| > |old(requests)| && requests[|requests| - 1].flush == flush
        decreases again, |nextIn|, ibufAvail == 0
      {
        ghost var rs, out := requests, output;
        var end := DeflatePass(flush);
        Extends(old(output), out, output);
        MoreRequests(old(requests), rs, requests, flush);
        if end.Some? {
          return end.value;
        }
        again := nextIn != [];
      }
      return ZOk;
    }

    static lemma NoRequests(rs: seq<Request>, flush: Flush)
      ensures Ordered(rs, rs, flush)
    {
    }

    static lemma MoreRequests(r0: seq<Request>, rs: seq<Request>, r: seq<Request>, flush: Flush)
      requires Ordered(r0, rs, flush) && rs <= r && |r| <= |rs| + 1
      requires r != rs ==> if r[|rs|].waiting > 0 then r[|rs|].flush == NoFlush else r[|rs|].flush == flush
      ensures r0 <= rs && Ordered(r0, r, flush)
    {
    }

    /** The card works on the empty internal buffer or on the caller's, and what was staged goes out. */
    method RunCard(flush: Flush, useInternal: bool)
      requires Valid() && ibufBase.Length == 0 && Obuf() == []
      modifies this, obufBase
      ensures Valid() && taken + nextIn == old(taken + nextIn)
      ensures old(output) <= output && |output| - |old(output)| == old(availOut) - availOut
      ensures availOut > 0 ==> Obuf() == []
      ensures OneMore(old(requests), requests, old(nextIn), flush, 0)
      ensures nextIn == requests[|old(requests)|].refused && rc == requests[|old(requests)|].code
    {
      hide Inputs, Outputs, OneMore;
      var out, result := Feed(flush, if useInternal then obufBase.Length else availOut);
      rc := result;
      pending := *;
      if useInternal {
        StoreOutput(out);
      } else {
        output := output + out;
        availOut := availOut - |out|;
      }
      ghost var out1 := output;
      var left := FlushObuf();
      Extends(old(output), out1, output);
    }

    /** The codes with which a call ends at once. */
    static predicate Failed(code: ZRc) {
      code == ZNeedDict || code == ZStreamError || code == ZDataError || code == ZBufError
    }

    /** A pass from the start of the card on; skipped is input that the scan for the stream end used up. */
    method CardPass(flush: Flush, useInternal: bool)
      returns (code: Option<ZRc>, atBlock: bool, ghost skipped: seq<byte>)
      requires Valid() && ibufBase.Length == 0 && Obuf() == []
      modifies this, obufBase
      ensures Valid() && taken + skipped + nextIn == old(taken + nextIn)
      ensures old(output) <= output && |output| - |old(output)| == old(availOut) - availOut
      ensures OneMore(old(requests), requests, old(nextIn), flush, 0)
      ensures skipped != [] ==> rc == ZStreamEnd && code.Some?
      ensures rc == requests[|old(requests)|].code
              || (rc == ZStreamEnd && !Failed(requests[|old(requests)|].code) && availOut == 0)
      ensures code == if Failed(rc) then Some(rc)
                      else if rc == ZStreamEnd && Obuf() == [] && pending == 0 then Some(ZStreamEnd)
                      else if availOut == 0 then Some(ZOk)
                      else if atBlock then Some(rc)
                      else None
      ensures atBlock ==> availOut > 0 && code == Some(rc)
      ensures code.None? ==> Obuf() == []
    {
      hide Inputs, Outputs, OneMore;
      atBlock, skipped := false, [];
      RunCard(flush, useInternal);
      if rc == ZNeedDict || rc == ZStreamError || rc == ZDataError || rc == ZBufError {
        code := Some(rc);
        return;
      }
      if rc != ZStreamEnd && availOut == 0 {
        var ended, n: nat := *, *;
        if ended {
          rc := ZStreamEnd;
          skipped := nextIn[..Min(n, |nextIn|)];
          nextIn := nextIn[Min(n, |nextIn|)..];
        }
      }
      if rc == ZStreamEnd && OutputBufferEmpty() && pending == 0 {
        code := Some(ZStreamEnd);
        return;
      }
      if availOut == 0 {
        code := Some(ZOk);
        return;
      }
      atBlock := *;
      code := if atBlock then Some(rc) else None;
    }

    /** One pass of the h_inflate loop: the staged output goes out first, so the buffer is empty when the card starts.
        Besides the code it says whether it ended at a block boundary; skipped is input that the scan for the stream end
        used up, fetched counts the bytes the library still held. */
    method InflatePass(flush: Flush, useInternal: bool)
      returns (code: Option<ZRc>, atBlock: bool, ghost skipped: seq<byte>, ghost fetched: nat)
      requires Valid() && ibufBase.Length == 0
      modifies this, obufBase
      ensures Valid() && taken + skipped + nextIn == old(taken + nextIn)
      ensures old(output) <= output && |output| - |old(output)| + fetched == old(availOut) - availOut
      ensures requests == old(requests) || OneMore(old(requests), requests, old(nextIn), flush, 0)
      ensures requests != old(requests) <==>
                && !(old(rc) == ZStreamEnd && |old(Obuf())| <= old(availOut))
                && !(old(availOut) == |old(Obuf())| && old(pending) > 0) && !(old(availOut) < |old(Obuf())|)
                && !(old(nextIn) == [] && (flush == NoFlush || flush == PartialFlush || flush == FullFlush))
      ensures requests == old(requests) ==> skipped == [] && nextIn == old(nextIn) && rc == old(rc) && !atBlock
      ensures requests == old(requests) ==> fetched == if rc == ZStreamEnd && |old(Obuf())| <= old(availOut)
                                              then Min(old(pending), old(availOut) - |old(Obuf())|) else 0
      ensures requests == old(requests) ==> pending == old(pending) - fetched
      ensures requests == old(requests) ==>
                code == Some(if rc == ZStreamEnd && Obuf() == [] && pending == 0 then ZStreamEnd else ZOk)
      ensures requests != old(requests) ==>
                && fetched == 0 && (skipped != [] ==> rc == ZStreamEnd && code.Some?)
                && (rc == requests[|old(requests)|].code
                    || (rc == ZStreamEnd && !Failed(requests[|old(requests)|].code) && availOut == 0))
      ensures requests != old(requests) ==>
                code == if Failed(rc) then Some(rc)
                        else if rc == ZStreamEnd && Obuf() == [] && pending == 0 then Some(ZStreamEnd)
                        else if availOut == 0 then Some(ZOk)
                        else if atBlock then Some(rc)
                        else None
      ensures fetched > 0 ==> Obuf() == []
      ensures code == Some(ZOk) ==> availOut == 0 || nextIn == [] || atBlock
      ensures atBlock ==> availOut > 0 && code == Some(rc)
      ensures code.None? ==> Obuf() == []
    {
      hide Inputs, Outputs;
      atBlock, skipped, fetched := false, [], 0;
      var left := FlushObuf();
      if rc == ZStreamEnd && left == 0 {
        var n := Min(pending, availOut);
        availOut, pending, fetched := availOut - n, pending - n, n;
        code := Some(if pending != 0 then ZOk else ZStreamEnd);
        return;
      }
      if (left != 0 || pending != 0) && availOut == 0 {
        code := Some(ZOk);
        return;
      }
      if nextIn == [] && (flush == NoFlush || flush == PartialFlush || flush == FullFlush) {
        code := Some(ZOk);
        return;
      }
      if !OutputBufferEmpty() {
        assert false; // the error branch of the source
        code := Some(ZDataError);
        return;
      }
      ghost var out := output;
      code, atBlock, skipped := CardPass(flush, useInternal);
      Extends(old(output), out, output);
    }

    /** The loop of h_inflate behind its first pass, while there is input, for at most the given number of passes. */
    method MorePasses(flush: Flush, useInternal: bool, passes: nat)
      returns (code: Option<ZRc>, atBlock: bool, ghost skipped: seq<byte>, ghost fetched: nat)
      requires Valid() && ibufBase.Length == 0 && nextIn != []
      requires requests != [] && !Failed(requests[|requests| - 1].code)
      modifies this, obufBase
      ensures Valid() && taken + skipped + nextIn == old(taken + nextIn)
      ensures old(output) <= output && |output| - |old(output)| + fetched == old(availOut) - availOut
      ensures old(requests) <= requests && (code.Some? || |requests| >= |old(requests)| + passes)
      ensures skipped != [] || fetched > 0 ==> rc == ZStreamEnd
      ensures code == Some(ZStreamEnd) ==> rc == ZStreamEnd && (atBlock || (Obuf() == [] && pending == 0))
      ensures Failed(requests[|requests| - 1].code) ==> code == Some(requests[|requests| - 1].code)
      ensures code.Some? && Failed(code.value) ==> code == Some(requests[|requests| - 1].code)
      ensures code == Some(ZOk) ==> availOut == 0 || nextIn == [] || atBlock
    {
      hide Inputs, Outputs, HwState.InputKept, HwState.OutputKept;
      var n := 0;
      atBlock, skipped, fetched := false, [], 0;
      while nextIn != [] && n < passes
        invariant Valid() && taken + nextIn == old(taken + nextIn)
        invariant old(output) <= output && |output| - |old(output)| == old(availOut) - availOut
        invariant old(requests) <= requests && |requests| >= |old(requests)| + n && n <= passes
        invariant !Failed(requests[|requests| - 1].code)
        invariant skipped == [] && fetched == 0 && !atBlock
        decreases passes - n
      {
        ghost var rs, out := requests, output;
        code, atBlock, skipped, fetched := InflatePass(flush, useInternal);
        Extends(old(output), out, output);
        Extends(old(requests), rs, requests);
        if code.Some? {
          return;
        }
        n := n + 1;
      }
      code := if nextIn != [] then None else Some(ZOk);
    }

    /** The loop of h_inflate, followed for at most the given number of passes; without a code it would go on. */
    method Passes(flush: Flush, useInternal: bool, passes: nat)
      returns (code: Option<ZRc>, atBlock: bool, ghost skipped: seq<byte>, ghost fetched: nat)
      requires Valid() && ibufBase.Length == 0
      modifies this, obufBase
      ensures Valid() && taken + skipped + nextIn == old(taken + nextIn)
      ensures old(output) <= output && |output| - |old(output)| + fetched == old(availOut) - availOut
      ensures old(requests) <= requests && (code.Some? || |requests| >= |old(requests)| + passes)
      ensures skipped != [] || fetched > 0 ==> rc == ZStreamEnd
      ensures code == Some(ZStreamEnd) ==> rc == ZStreamEnd && (atBlock || (Obuf() == [] && pending == 0))
      ensures passes > 0 ==>
                (requests != old(requests) <==>
                  && !(old(rc) == ZStreamEnd && |old(Obuf())| <= old(availOut))
                  && !(old(availOut) == |old(Obuf())| && old(pending) > 0) && !(old(availOut) < |old(Obuf())|)
                  && !(old(nextIn) == [] && (flush == NoFlush || flush == PartialFlush || flush == FullFlush)))
      ensures requests != old(requests) && Failed(requests[|requests| - 1].code) ==>
                code == Some(requests[|requests| - 1].code)
      ensures code.Some? && Failed(code.value) ==>
                requests != old(requests) && code == Some(requests[|requests| - 1].code)
      ensures code == Some(ZOk) ==> availOut == 0 || nextIn == [] || atBlock
    {
      hide Inputs, Outputs, HwState.InputKept, HwState.OutputKept;
      if passes == 0 {
        return None, false, [], 0;
      }
      code, atBlock, skipped, fetched := InflatePass(flush, useInternal);
      if code.Some? {
        return;
      }
      if nextIn == [] {
        code := Some(ZOk);
        return;
      }
      ghost var rs, out := requests, output;
      code, atBlock, skipped, fetched := MorePasses(flush, useInternal, passes - 1);
      Extends(old(output), out, output);
      Extends(old(requests), rs, requests);
    }

    /** h_inflate. */
    method Inflate(flush: Flush, useInternal: bool, passes: nat)
      returns (code: Option<ZRc>, atBlock: bool, ghost skipped: seq<byte>, ghost fetched: nat)
      requires Valid() && ibufBase.Length == 0
      modifies this, obufBase
      ensures Valid() && taken + skipped + nextIn == old(taken + nextIn)
      ensures old(output) <= output && |output| - |old(output)| + fetched == old(availOut) - availOut
      ensures old(requests) <= requests && (code.Some? || |requests| >= |old(requests)| + passes)
      ensures skipped != [] || fetched > 0 ==> rc == ZStreamEnd
      ensures code == Some(ZStreamEnd) ==>
                rc == ZStreamEnd && (obufBase.Length == 0 || atBlock || (Obuf() == [] && pending == 0))
      ensures obufBase.Length == 0 ==>
                |requests| == |old(requests)| + 1 && code == Some(requests[|requests| - 1].code)
      ensures obufBase.Length > 0 && passes > 0 ==>
                (requests != old(requests) <==>
                  && !(old(rc) == ZStreamEnd && |old(Obuf())| <= old(availOut))
                  && !(old(availOut) == |old(Obuf())| && old(pending) > 0) && !(old(availOut) < |old(Obuf())|)
                  && !(old(nextIn) == [] && (flush == NoFlush || flush == PartialFlush || flush == FullFlush)))
      ensures requests != old(requests) && requests[|requests| - 1].code !in {ZOk, ZStreamEnd} ==>
                code == Some(requests[|requests| - 1].code)
      ensures code.Some? && code.value != ZOk && code.value != ZStreamEnd ==>
                requests != old(requests) && code == Some(requests[|requests| - 1].code)
      ensures code == Some(ZOk) && obufBase.Length > 0 ==> availOut == 0 || nextIn == [] || atBlock
    {
      hide Inputs, Outputs, HwState.InputKept, HwState.OutputKept;
      if obufBase.Length == 0 {
        var c := Direct(flush);
        return Some(c), false, [], 0;
      }
      if obuf == obufNext && pending == 0 && rc == ZStreamEnd {
        return Some(ZStreamEnd), false, [], 0;
      }
      code, atBlock, skipped, fetched := Passes(flush, useInternal, passes);
    }
  }
}
