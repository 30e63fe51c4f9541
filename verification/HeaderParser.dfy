/** The resumable parsers of gzip and zlib headers and trailers (lib/inflate.c). */
module HeaderParser {
  import opened Bits
  import opened Words
  import opened Framing
  import opened HeaderSpec
  import Adler

  datatype DictRc = DictOk | DictStreamError | DictDataError

  datatype Rc = Ok | ErrGzipHdr | ZNeedDict

  class ParserState {
    const format: Format
    // collected bytes and position
    const prefx: array<byte>
    var prefxLen: nat
    var prefxIdx: nat
    var headerState: HeadState
    var xlen: nat
    var gzipHeaderIdx: nat
    var gzipHcrc: nat
    // the record installed by inflateGetHeader, if any
    const gzH: bool
    const extra: array<byte>
    const name: array<byte>
    const comment: array<byte>
    var time: bv32
    var xflags: byte
    var os: byte
    var text: bool
    var extraLen: nat
    var done: bool
    // preset dictionary and checksums
    var dictAdler32: bv32
    var adler32: bv32
    var crc32: bv32
    var haveDict: bool
    // trailer
    const postfx: array<byte>
    var postfxLen: nat
    var postfxIdx: nat
    // the caller's input: the avail_in bytes at next_in
    var nextIn: seq<byte>
    var totalIn: nat

    ghost predicate Buffers() {
      && prefx.Length == ZEDC_FORMAT_STORAGE && postfx.Length == ZEDC_FORMAT_STORAGE
      && prefx != postfx && prefx != extra && prefx != name && prefx != comment
      && postfx != extra && postfx != name && postfx != comment
      && extra != name && extra != comment && name != comment
    }

    ghost predicate Valid()
      reads this
    {
      && Buffers()
      && xlen < XLEN_RANGE
      && (prefxLen == 0 ==> prefxIdx == 0)
      && (format == Gzip ==> headerState != ZlibAdler)
      && (format == Zlib ==> headerState == Start || headerState == ZlibAdler || headerState == HeadDone)
      && (postfxLen == 0 ==> postfxIdx == 0)
      && (postfxLen != 0 ==> postfxLen == TrailLen(format))
      && postfxIdx <= TrailLen(format)
    }

    ghost function Head(): Option<Recv>
      reads this, extra, name, comment
    {
      if gzH then Some(Recv(time, xflags, os, text, extraLen, extra[..], name[..], comment[..], done)) else None
    }

    ghost function Model(): Parser
      reads this, prefx, extra, name, comment
    {
      Parser(headerState, prefxIdx, prefx[..], xlen, gzipHeaderIdx, gzipHcrc, Head(), dictAdler32, adler32, haveDict)
    }

    lemma Modelled()
      requires Valid()
      ensures Model().Valid() && Model().state == headerState && Model().idx == prefxIdx && Model().prefx == prefx[..]
    {
    }

    /** The parser with the loop variable of the source in place of the stored state. */
    ghost function In(next: HeadState): Parser
      reads this, prefx, extra, name, comment
    {
      Model().(state := next)
    }

    /** The state after inflateInit, with receive buffers of the given sizes. */
    constructor (format: Format, gzH: bool, extraMax: nat, nameMax: nat, commMax: nat)
      ensures Valid() && Model().Valid() && headerState == Start && prefxIdx == 0 && postfxIdx == 0
      ensures this.format == format && Got() == [] && nextIn == []
      ensures Head().Some? <==> gzH
      ensures extra.Length == extraMax && name.Length == nameMax && comment.Length == commMax
      ensures fresh(prefx) && fresh(postfx) && fresh(extra) && fresh(name) && fresh(comment)
    {
      this.format, this.gzH := format, gzH;
      prefx := new byte[ZEDC_FORMAT_STORAGE](_ => 0);
      postfx := new byte[ZEDC_FORMAT_STORAGE](_ => 0);
      extra, name, comment := new byte[extraMax], new byte[nameMax], new byte[commMax];
      prefxLen, prefxIdx, headerState, xlen, gzipHeaderIdx, gzipHcrc := 0, 0, Start, 0, 0, 0;
      time, xflags, os, text, extraLen, done := 0, 0, 0, false, 0, false;
      dictAdler32, adler32, crc32, haveDict := 0, 1, 0, false;
      postfxLen, postfxIdx, nextIn, totalIn := 0, 0, [], 0;
    }

    method TakeStart() returns (s: HeadState, sig: Sig)
      requires Buffers() && xlen < XLEN_RANGE
      modifies this`time, this`xflags, this`os
      ensures old(In(Start)).Valid()
      ensures (In(s), sig) == TurnStart(old(In(Start)))
    {
      hide FromLe32;
      assert prefx[..][..3] == [prefx[0], prefx[1], prefx[2]] && prefx[..][4..8] == prefx[4..8];
      if prefx[0] != 0x1f || prefx[1] != 0x8b || prefx[2] != 0x08 {
        return Start, Fault;
      }
      if gzH {
        time := FromLe32(prefx[4..8]);
        xflags := prefx[8];
        os := prefx[9];
      }
      return CheckEmpty, Go;
    }

    method TakeExtra(b: byte) returns (s: HeadState, sig: Sig)
      requires Buffers() && xlen < XLEN_RANGE
      modifies this`xlen, this`gzipHeaderIdx, extra
      ensures xlen < XLEN_RANGE
      ensures old(In(GetExtra)).Valid()
      ensures (In(s), sig) == TurnExtra(old(In(GetExtra)), b)
    {
      s, sig := GetExtra, Wait;
      if xlen == 1 {
        s, sig := CheckName, Go;
      } else {
        xlen := if xlen == 0 then XLEN_RANGE - 1 else xlen - 1;
      }
      if gzH {
        var myIdx := gzipHeaderIdx;
        if myIdx < extra.Length {
          ghost var was := extra[..];
          extra[myIdx] := b;
          assert extra[..] == was[myIdx := b];
          gzipHeaderIdx := myIdx + 1;
        } else {
          return s, Fault;
        }
      }
    }

    method TakeName(b: byte) returns (s: HeadState, sig: Sig)
      requires Buffers()
      modifies this`gzipHeaderIdx, name
      ensures (In(s), sig) == TurnName(old(In(GetName)), b)
    {
      s, sig := GetName, Wait;
      if gzH {
        var myIdx := gzipHeaderIdx;
        if myIdx < name.Length {
          ghost var was := name[..];
          name[myIdx] := b;
          assert name[..] == was[myIdx := b];
          gzipHeaderIdx := myIdx + 1;
        } else {
          return s, Fault;
        }
      }
      if b == 0 {
        s, sig := CheckComment, Go;
      }
    }

    method TakeComment(b: byte) returns (s: HeadState, sig: Sig)
      requires Buffers()
      modifies this`gzipHeaderIdx, comment
      ensures (In(s), sig) == TurnComment(old(In(GetComment)), b)
    {
      s, sig := GetComment, Wait;
      if gzH {
        var myIdx := gzipHeaderIdx;
        if myIdx < comment.Length {
          ghost var was := comment[..];
          comment[myIdx] := b;
          assert comment[..] == was[myIdx := b];
          gzipHeaderIdx := myIdx + 1;
        } else {
          return s, Fault;
        }
      }
      if b == 0 {
        s, sig := CheckHcrc, Go;
      }
    }

    /** The bytes of the two-byte fields. */
    method TakeNumber(next: HeadState, b: byte) returns (s: HeadState, sig: Sig)
      requires Buffers() && xlen < XLEN_RANGE
      requires next == ExtraLen1 || next == ExtraLen2 || next == Hcrc1 || next == Hcrc2
      modifies this`xlen, this`gzipHeaderIdx, this`gzipHcrc, this`extraLen
      ensures xlen < XLEN_RANGE && old(In(next)).Valid() && (In(s), sig) == Turn(old(In(next)), b)
      ensures s != ZlibAdler && s != HeadDone
    {
      hide Value, WithHigh;
      if next == ExtraLen1 {
        xlen := Value(b);
        gzipHeaderIdx := 0;
        s, sig := ExtraLen2, Wait;
      } else if next == ExtraLen2 {
        xlen := WithHigh(xlen, b);
        if gzH {
          extraLen := xlen;
        }
        s, sig := GetExtra, Wait;
      } else if next == Hcrc1 {
        gzipHcrc := Value(b);
        s, sig := Hcrc2, Wait;
      } else {
        gzipHcrc := gzipHcrc + 256 * Value(b);
        s, sig := CheckText, Go;
      }
    }

    /** The switch of the gzip state loop. */
    method OneTurn(next: HeadState, b: byte) returns (s: HeadState, sig: Sig)
      requires Buffers() && xlen < XLEN_RANGE && next != HeadDone && next != ZlibAdler
      modifies this`xlen, this`gzipHeaderIdx, this`gzipHcrc, this`time, this`xflags, this`os, this`text, this`extraLen
      modifies extra, name, comment
      ensures xlen < XLEN_RANGE
      ensures old(In(next)).Valid()
      ensures (In(s), sig) == Turn(old(In(next)), b)
      ensures s != ZlibAdler && (sig == Wait ==> s != HeadDone)
    {
      hide TurnStart, TurnExtra, TurnName, TurnComment, Value, WithHigh, HasFlag;
      s, sig := next, Go;
      match next {
        case Start => s, sig := TakeStart(); TurnStates(old(In(next)), b);
        case CheckEmpty => s := if prefx[3] == 0 then HeadDone else CheckExtra;
        case CheckExtra =>
          if HasFlag(prefx[3], FEXTRA) { s, sig := ExtraLen1, Wait; } else { s := CheckName; }
        case ExtraLen1 => s, sig := TakeNumber(next, b);
        case ExtraLen2 => s, sig := TakeNumber(next, b);
        case GetExtra => s, sig := TakeExtra(b); TurnStates(old(In(next)), b);
        case CheckName =>
          if HasFlag(prefx[3], FNAME) { s, sig := GetName, Wait; gzipHeaderIdx := 0; } else { s := CheckComment; }
        case GetName => s, sig := TakeName(b); TurnStates(old(In(next)), b);
        case CheckComment =>
          if HasFlag(prefx[3], FCOMMENT) { s, sig := GetComment, Wait; gzipHeaderIdx := 0; } else { s := CheckHcrc; }
        case GetComment => s, sig := TakeComment(b); TurnStates(old(In(next)), b);
        case CheckHcrc =>
          if HasFlag(prefx[3], FHCRC) { s, sig := Hcrc1, Wait; } else { s := CheckText; }
        case Hcrc1 => s, sig := TakeNumber(next, b);
        case Hcrc2 => s, sig := TakeNumber(next, b);
        case CheckText =>
          if HasFlag(prefx[3], FTEXT) && gzH {
            text := true;
          }
          s := HeadDone;
      }
    }

    lemma TurnStates(p: Parser, b: byte)
      requires p.Valid() && p.state != ZlibAdler && p.state != HeadDone
      ensures Turn(p, b).0.state != ZlibAdler && (Turn(p, b).1 == Wait ==> Turn(p, b).0.state != HeadDone)
    {
    }

    /** The state loop: it stops at a state that waits for the next byte, at the end, or at a fault. */
    method RunStates(start: HeadState, b: byte) returns (next: HeadState, sig: Sig)
      requires Buffers() && xlen < XLEN_RANGE && start != HeadDone && start != ZlibAdler
      modifies this`xlen, this`gzipHeaderIdx, this`gzipHcrc, this`time, this`xflags, this`os, this`text, this`extraLen
      modifies extra, name, comment
      ensures xlen < XLEN_RANGE && next != ZlibAdler && old(In(start)).Valid() && In(next).Valid()
      ensures forall e :: Walk(e, old(In(start)), b) ==
                match sig
                case Go => Walk(e, In(HeadDone), b)
                case Wait => (In(next), NeedMore)
                case Fault => (In(e), HdrError)
      ensures match sig case Go => next == HeadDone case Wait => next != HeadDone case Fault => true
    {
      hide Turn;
      next, sig := start, Go;
      ghost var p := In(start);
      while next != HeadDone && sig != Wait
        invariant xlen < XLEN_RANGE && next != ZlibAdler && sig != Fault && (sig == Wait ==> next != HeadDone)
        invariant forall e :: Walk(e, p, b) == if sig == Wait then (In(next), NeedMore) else Walk(e, In(next), b)
        decreases sig != Wait, 15 - Rank(next)
      {
        ghost var q := In(next);
        TurnAdvances(q, b);
        next, sig := OneTurn(next, b);
        assert forall e :: Walk(e, p, b) == Walk(e, q, b);
        if sig == Fault {
          return;
        }
      }
    }

    /** The state the loop ended with is stored. */
    method Conclude(next: HeadState, ghost e: HeadState, b: byte) returns (rc: HdrRc)
      requires Buffers() && xlen < XLEN_RANGE
      modifies this`headerState, this`done
      ensures old(In(next)).Valid() && headerState == next
      ensures next == HeadDone ==> (Model(), rc) == Walk(e, old(In(next)), b) && rc == HdrOk
      ensures next != HeadDone ==> (Model(), rc) == (old(In(next)), NeedMore)
    {
      hide Turn;
      if next == HeadDone {
        if gzH {
          done := true;
        }
      }
      headerState := next;
      return if next == HeadDone then HdrOk else NeedMore;
    }

    /** The state loop and what follows it. */
    method GzipStates(state: HeadState) returns (rc: HdrRc)
      requires Buffers() && xlen < XLEN_RANGE && nextIn != [] && state != HeadDone && state != ZlibAdler
               && headerState != ZlibAdler
      modifies this`xlen, this`gzipHeaderIdx, this`gzipHcrc, this`time, this`xflags, this`os, this`text, this`extraLen,
               this`headerState, this`done
      modifies extra, name, comment
      ensures xlen < XLEN_RANGE && headerState != ZlibAdler
      ensures old(In(state)).Valid() && (Model(), rc) == Walk(old(headerState), old(In(state)), nextIn[0])
      ensures if rc == NeedMore then headerState != HeadDone else rc == HdrError || headerState == HeadDone
    {
      hide Turn, Walk, ParserState.Buffers;
      var next, sig := RunStates(state, nextIn[0]);
      if sig == Fault {
        return HdrError;
      }
      rc := Conclude(next, headerState, nextIn[0]);
    }

    /** inflate_rem_gzip_header: all that one more byte, already stored, makes possible. */
    method RemGzipHeader() returns (rc: HdrRc)
      requires Valid() && format == Gzip && nextIn != [] && headerState != HeadDone
      modifies this`xlen, this`gzipHeaderIdx, this`gzipHcrc, this`time, this`xflags, this`os, this`text, this`extraLen,
               this`headerState, this`done
      modifies extra, name, comment
      ensures Valid() && old(Model()).Valid() && (Model(), rc) == GzipByte(old(Model()), old(nextIn[0]))
      ensures if rc == NeedMore then headerState != HeadDone else rc == HdrError || headerState == HeadDone
    {
      hide Turn, Walk, TrailLen, ParserState.Buffers;
      Modelled();
      if prefxIdx < 9 {
        return NeedMore;
      }
      var state := headerState;
      if prefxIdx == 9 {
        headerState := Start;
      }
      rc := GzipStates(state);
    }

    /** The switch of the zlib state loop. */
    method ZlibTurn(next: HeadState) returns (s: HeadState, moreData: bool, rc: HdrRc)
      requires Buffers() && xlen < XLEN_RANGE && prefxIdx >= 1 && (next == Start || next == ZlibAdler)
      modifies this`dictAdler32, this`adler32, this`haveDict
      ensures old(In(next)).Valid() && rc != NeedMore && (rc == HdrError ==> !moreData && s == next)
      ensures ZlibByte(old(In(next))) == (In(s), if moreData then NeedMore else rc)
      ensures rc != HdrError ==> (if moreData then s == Start || s == ZlibAdler else s == HeadDone)
    {
      hide FromBe32, HasFlag, ZlibHeadOk;
      s, moreData, rc := next, false, HdrOk;
      if next == Start {
        if prefxIdx == 1 {
          if !ZlibHeadOk(prefx[0], prefx[1]) {
            rc := HdrError;
            return;
          }
          if HasFlag(prefx[1], FDICT) {
            s, moreData := ZlibAdler, true;
          } else {
            s := HeadDone;
          }
        } else {
          moreData := true;
        }
      } else {
        if prefxIdx == 5 {
          assert prefx[..][2..6] == prefx[2..6];
          dictAdler32 := FromBe32(prefx[2..6]);
          adler32 := dictAdler32;
          haveDict := false;
          s, rc := HeadDone, NeedDict;
        } else {
          moreData := true;
        }
      }
    }

    lemma ZlibFirst(p: Parser)
      requires p.Valid() && p.idx < 1
      ensures ZlibByte(p) == (p.(state := Start), NeedMore)
    {
    }

    /** inflate_rem_zlib_header. */
    method RemZlibHeader() returns (rc: HdrRc)
      requires Valid() && format == Zlib && headerState != HeadDone
      modifies this`headerState, this`dictAdler32, this`adler32, this`haveDict
      ensures Valid() && old(Model()).Valid() && (Model(), rc) == ZlibByte(old(Model()))
      ensures if rc == NeedMore then headerState != HeadDone else rc == HdrError || headerState == HeadDone
    {
      hide ZlibByte, TrailLen, ParserState.Buffers;
      Modelled();
      if prefxIdx < 1 {
        ZlibFirst(Model());
        headerState := Start;
        return NeedMore;
      }
      var next := headerState;
      var moreData := false;
      rc := HdrOk;
      while next != HeadDone && !moreData
        invariant Valid() && headerState == old(headerState) && rc != NeedMore && rc != HdrError
        invariant next == Start || next == ZlibAdler || (next == HeadDone && !moreData)
        invariant if moreData then ZlibByte(old(Model())) == (In(next), NeedMore)
                  else if next == HeadDone then ZlibByte(old(Model())) == (In(next), rc)
                  else Model() == old(Model()) && next == headerState && rc == HdrOk
        decreases !moreData, 15 - Rank(next)
      {
        next, moreData, rc := ZlibTurn(next);
        if rc == HdrError {
          return;
        }
      }
      headerState := next;
      if moreData {
        rc := NeedMore;
      }
    }

    /** Stores the next byte if there is room for it. */
    method StorePrefix()
      requires Valid() && nextIn != []
      modifies prefx
      ensures Valid() && Model() == old(Model()).(prefx := Put(old(prefx[..]), prefxIdx, nextIn[0]))
    {
      if prefxIdx < ZEDC_FORMAT_STORAGE {
        ghost var was := prefx[..];
        prefx[prefxIdx] := nextIn[0];
        assert prefx[..] == was[prefxIdx := nextIn[0]];
      }
    }

    /** One byte of the header loop. */
    method HeaderStep() returns (rc: HdrRc)
      requires Valid() && format != Defl && nextIn != [] && headerState != HeadDone && prefxLen != 0
      modifies this`prefxIdx, this`headerState, this`nextIn, this`totalIn, this`done
      modifies this`xlen, this`gzipHeaderIdx, this`gzipHcrc, this`time, this`xflags, this`os, this`text, this`extraLen
      modifies this`dictAdler32, this`adler32, this`haveDict, prefx, extra, name, comment
      ensures Valid() && old(Model()).Valid() && (Model(), rc) == HeaderByte(format, old(Model()), old(nextIn[0]))
      ensures if rc == NeedMore then headerState != HeadDone else rc == HdrError || headerState == HeadDone
      ensures nextIn == old(nextIn[1..]) && totalIn == old(totalIn) + 1
    {
      hide GzipByte, ZlibByte, Put, ParserState.Valid, ParserState.Model;
      Modelled();
      StorePrefix();
      if format == Gzip {
        rc := RemGzipHeader();
      } else {
        rc := RemZlibHeader();
      }
      CountByte();
    }

    method CountByte()
      requires Valid() && nextIn != [] && prefxLen != 0
      modifies this`prefxIdx, this`nextIn, this`totalIn
      ensures Valid() && Model() == old(Model()).(idx := old(Model()).idx + 1) && prefxIdx == old(prefxIdx) + 1
      ensures nextIn == old(nextIn[1..]) && totalIn == old(totalIn) + 1
    {
      nextIn := nextIn[1..];
      totalIn := totalIn + 1;
      prefxIdx := prefxIdx + 1;
    }

    /** The loop over the input; n is the number of bytes taken. */
    method HeaderLoop() returns (rc: HdrRc, ghost n: nat)
      requires Valid() && format != Defl && headerState != HeadDone && prefxLen != 0
      modifies this, prefx, extra, name, comment
      ensures Valid() && old(Model()).Valid()
      ensures n <= |old(nextIn)| && nextIn == old(nextIn)[n..] && totalIn == old(totalIn) + n
      ensures Feed(format, old(Model()), old(nextIn)) == (Model(), n, rc)
      ensures rc == HdrError || headerState == HeadDone || nextIn == []
      ensures crc32 == old(crc32) && postfxLen == old(postfxLen) && postfxIdx == old(postfxIdx)
    {
      hide HeaderByte, Feed, ParserState.Valid, ParserState.Model;
      Modelled();
      ghost var p, s := Model(), nextIn;
      rc, n := NeedMore, 0;
      FeedNothing(format, p);
      while nextIn != [] && rc == NeedMore
        invariant Valid() && p.Valid() && Model().Valid() && prefxLen != 0
        invariant if rc == NeedMore then headerState != HeadDone else rc == HdrError || headerState == HeadDone
        invariant n <= |s| && nextIn == s[n..] && totalIn == old(totalIn) + n
        invariant Feed(format, p, s) ==
                  if rc == NeedMore then Shift(n, Feed(format, Model(), nextIn)) else (Model(), n, rc)
        invariant crc32 == old(crc32) && postfxLen == old(postfxLen) && postfxIdx == old(postfxIdx)
        decreases |nextIn|
      {
        FeedUnfold(format, Model(), nextIn);
        rc := HeaderStep();
        n := n + 1;
        Modelled();
      }
      FeedNothing(format, Model());
    }

    /** inflate_format_rem_header: the return code tells only refusals and dictionaries; the state tells the end. */
    method RemHeader() returns (rc: Rc)
      requires Valid() && headerState != HeadDone
      modifies this, prefx, extra, name, comment
      ensures Valid() && old(Model()).Valid()
      ensures format == Defl ==> rc == Ok && nextIn == old(nextIn) && Model() == old(Model()) && totalIn == old(totalIn)
      ensures format != Defl ==>
                var r := Feed(format, old(Model()), old(nextIn));
                && Model() == r.0 && nextIn == old(nextIn)[r.1..] && totalIn == old(totalIn) + r.1
                && rc == match r.2 case HdrError => ErrGzipHdr case NeedDict => ZNeedDict case _ => Ok
      ensures rc == Ok && format != Defl ==> headerState == HeadDone || nextIn == []
      ensures crc32 == old(crc32) && postfxLen == old(postfxLen) && postfxIdx == old(postfxIdx)
    {
      hide Feed;
      if format == Defl {
        return Ok;
      }
      if prefxLen == 0 {
        prefxIdx := 0;
        prefxLen := if format == Gzip then 10 else 2;
      }
      var rc1, n := HeaderLoop();
      rc := match rc1 case HdrError => ErrGzipHdr case NeedDict => ZNeedDict case _ => Ok;
    }

    method SetChecksums(crc: bv32, adler: bv32)
      requires Valid()
      modifies this`crc32, this`adler32
      ensures Valid() && crc32 == crc && adler32 == adler
    {
      crc32, adler32 := crc, adler;
    }

    /** Input that the card has used up. */
    method StepOver(n: nat)
      requires Valid() && n <= |nextIn|
      modifies this`nextIn, this`totalIn
      ensures Valid() && nextIn == old(nextIn)[n..] && totalIn == old(totalIn) + n
    {
      nextIn := nextIn[n..];
      totalIn := totalIn + n;
    }

    /** inflateSetDictionary, for the checks it makes. */
    method SetDictionary(dictionary: seq<byte>) returns (rc: DictRc)
      requires Valid()
      modifies this`haveDict, this`adler32
      ensures Valid()
      ensures rc == DictOk <==> Accepts(format, old(Model()), dictionary)
      ensures rc == DictStreamError <==> |dictionary| > 0x8010
      ensures rc == DictDataError <==>
                |dictionary| <= 0x8010 && format == Zlib && Adler.DictId(dictionary) != old(dictAdler32)
      ensures if rc == DictOk then haveDict && adler32 == 1 else haveDict == old(haveDict) && adler32 == old(adler32)
    {
      hide Adler.DictId;
      if |dictionary| > Adler.ZEDC_DICT_LEN {
        return DictStreamError;
      }
      if format == Zlib {
        var a32 := Adler.Adler32(1, dictionary);
        Adler.IdOf(dictionary, a32);
        if Low32(a32) != dictAdler32 {
          return DictDataError;
        }
      }
      haveDict := true;
      adler32 := 1;
      return DictOk;
    }

    ghost function Got(): seq<byte>
      requires postfx.Length == ZEDC_FORMAT_STORAGE && postfxIdx <= ZEDC_FORMAT_STORAGE
      reads this`postfxIdx, postfx
    {
      postfx[..postfxIdx]
    }

    /** One byte of the trailer, and the comparisons that follow it. */
    method TrailerByte() returns (refused: bool)
      requires Valid() && nextIn != [] && postfxLen == TrailLen(format) && postfxIdx < postfxLen
      modifies this`nextIn, this`totalIn, this`postfxIdx, postfx
      ensures Valid() && Got() == old(Got()) + [old(nextIn[0])]
      ensures nextIn == old(nextIn[1..]) && totalIn == old(totalIn) + 1
      ensures refused <==> Refused(format, Got(), crc32, adler32)
    {
      hide FromLe32, FromBe32;
      postfx[postfxIdx] := nextIn[0];
      postfxIdx := postfxIdx + 1;
      nextIn := nextIn[1..];
      totalIn := totalIn + 1;
      refused := false;
      if postfxIdx == 4 && format == Gzip {
        assert Got()[..4] == postfx[..4];
        if FromLe32(postfx[..4]) != crc32 {
          return true;
        }
      }
      if postfxIdx >= postfxLen {
        if format == Gzip {
          assert Got()[..4] == postfx[..4];
          if FromLe32(postfx[..4]) != crc32 {
            return true;
          }
        } else {
          if FromBe32(postfx[..4]) != adler32 {
            return true;
          }
        }
      }
    }

    /** The loop over the input; n is the number of bytes taken. */
    method TrailerLoop() returns (rc: TrailRc, ghost n: nat)
      requires Valid() && postfxLen == TrailLen(format) && postfxIdx < postfxLen
      modifies this`nextIn, this`totalIn, this`postfxIdx, postfx
      ensures Valid() && n <= |old(nextIn)| && nextIn == old(nextIn)[n..] && totalIn == old(totalIn) + n
      ensures Take(format, old(Got()), crc32, adler32, old(nextIn)) == (Got(), n, rc)
    {
      hide Refused, Take;
      ghost var s, r := nextIn, Take(format, Got(), crc32, adler32, nextIn);
      rc, n := TrailMore, 0;
      while postfxIdx < postfxLen && nextIn != [] && rc == TrailMore
        invariant Valid() && postfxLen == TrailLen(format)
        invariant n <= |s| && nextIn == s[n..] && totalIn == old(totalIn) + n
        invariant r == if rc == TrailMore then Later(n, Take(format, Got(), crc32, adler32, nextIn)) else (Got(), n, rc)
        decreases |nextIn|
      {
        TakeUnfold(format, Got(), crc32, adler32, nextIn);
        n := n + 1;
        var refused := TrailerByte();
        if refused {
          rc := TrailError;
        }
      }
      TakeUnfold(format, Got(), crc32, adler32, nextIn);
      if postfxIdx == postfxLen && rc == TrailMore {
        rc := TrailOk;
      }
    }

    /** inflate_format_rem_trailer. */
    method RemTrailer() returns (rc: TrailRc)
      requires Valid()
      modifies this`nextIn, this`totalIn, this`postfxIdx, this`postfxLen, postfx
      ensures Valid()
      ensures var r := Take(format, old(Got()), crc32, adler32, old(nextIn));
              Got() == r.0 && nextIn == old(nextIn)[r.1..] && totalIn == old(totalIn) + r.1 && rc == r.2
    {
      hide Refused, Take;
      TakeUnfold(format, Got(), crc32, adler32, nextIn);
      if format == Defl {
        return TrailOk;
      }
      if postfxLen == 0 {
        postfxIdx := 0;
        postfxLen := if format == Gzip then 8 else 4;
      }
      if postfxIdx == postfxLen {
        return TrailOk;
      }
      ghost var n: nat;
      rc, n := TrailerLoop();
    }
  }

  lemma TakeUnfold(format: Format, got: seq<byte>, crc: bv32, adler: bv32, s: seq<byte>)
    requires |got| <= TrailLen(format)
    ensures Take(format, got, crc, adler, s) ==
            if |got| == TrailLen(format) then (got, 0, TrailOk)
            else if s == [] then (got, 0, TrailMore)
            else if Refused(format, got + [s[0]], crc, adler) then (got + [s[0]], 1, TrailError)
            else Later(1, Take(format, got + [s[0]], crc, adler, s[1..]))
  {
    hide Refused;
  }

  lemma FeedUnfold(format: Format, p: Parser, s: seq<byte>)
    requires p.Valid() && s != []
    ensures var (q, rc) := HeaderByte(format, p, s[0]);
            Feed(format, p, s) == if rc != NeedMore then (q, 1, rc) else Shift(1, Feed(format, q, s[1..]))
  {
    hide HeaderByte;
  }

  lemma FeedNothing(format: Format, p: Parser)
    requires p.Valid()
    ensures Feed(format, p, []) == (p, 0, NeedMore)
  {
  }
}
