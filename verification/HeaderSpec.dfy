/** Byte-by-byte specification of the resumable header and trailer parsers (lib/inflate.c). */
module HeaderSpec {
  import opened Bits
  import opened Words
  import opened Framing
  import Adler

  const ZEDC_FORMAT_STORAGE := 18
  const XLEN_RANGE := 0x1_0000

  datatype HeadState =
    | Start | CheckEmpty | CheckExtra | ExtraLen1 | ExtraLen2 | GetExtra | CheckName | GetName
    | CheckComment | GetComment | CheckHcrc | Hcrc1 | Hcrc2 | CheckText | ZlibAdler | HeadDone

  /** What inflateGetHeader receives. The buffers keep their length, which is their capacity. */
  datatype Recv = Recv(time: bv32, xflags: byte, os: byte, text: bool, extraLen: nat,
                       extra: seq<byte>, name: seq<byte>, comment: seq<byte>, done: bool)

  /** The parser: idx counts header bytes, hidx bytes of the current variable field. */
  datatype Parser = Parser(state: HeadState, idx: nat, prefx: seq<byte>, xlen: nat, hidx: nat, hcrc: nat,
                           recv: Option<Recv>, dictAdler: bv32, adler: bv32, haveDict: bool)
  {
    ghost predicate Valid() {
      |prefx| == ZEDC_FORMAT_STORAGE && xlen < XLEN_RANGE
    }

    function SetRecv(r: Recv): Parser {
      this.(recv := Some(r))
    }

    predicate Flag(f: byte)
      requires Valid()
    {
      HasFlag(prefx[3], f)
    }
  }

  predicate HasFlag(flg: byte, f: byte) {
    flg & f != 0
  }

  datatype HdrRc = HdrOk | NeedMore | NeedDict | HdrError

  /** How one iteration of the state loop ends: go on, wait for the next byte, or refuse the header. */
  datatype Sig = Go | Wait | Fault

  /** Stores a byte in a receive buffer. */
  function Put(buf: seq<byte>, at: nat, b: byte): (s: seq<byte>)
    ensures |s| == |buf|
  {
    if at < |buf| then buf[at := b] else buf
  }

  /** The 16-bit extra length after its second byte, and counted down by one. */
  function WithHigh(lo: nat, b: byte): (n: nat)
    ensures n < XLEN_RANGE
  {
    (lo + 256 * Value(b)) % XLEN_RANGE
  }

  function CountDown(xlen: nat): (n: nat)
    requires xlen < XLEN_RANGE
    ensures n < XLEN_RANGE
  {
    if xlen == 0 then XLEN_RANGE - 1 else xlen - 1
  }

  function TurnExtra(p: Parser, b: byte): (Parser, Sig)
    requires p.Valid()
  {
    var q := if p.xlen == 1 then p.(state := CheckName) else p.(xlen := CountDown(p.xlen));
    var sig := if p.xlen == 1 then Go else Wait;
    match p.recv
    case None => (q, sig)
    case Some(r) =>
      if p.hidx < |r.extra| then (q.(hidx := p.hidx + 1).SetRecv(r.(extra := Put(r.extra, p.hidx, b))), sig)
      else (q, Fault)
  }

  function TurnName(p: Parser, b: byte): (Parser, Sig) {
    var q := if b == 0 then p.(state := CheckComment) else p;
    var sig := if b == 0 then Go else Wait;
    match p.recv
    case None => (q, sig)
    case Some(r) =>
      if p.hidx < |r.name| then (q.(hidx := p.hidx + 1).SetRecv(r.(name := Put(r.name, p.hidx, b))), sig)
      else (p, Fault)
  }

  function TurnComment(p: Parser, b: byte): (Parser, Sig) {
    var q := if b == 0 then p.(state := CheckHcrc) else p;
    var sig := if b == 0 then Go else Wait;
    match p.recv
    case None => (q, sig)
    case Some(r) =>
      if p.hidx < |r.comment| then (q.(hidx := p.hidx + 1).SetRecv(r.(comment := Put(r.comment, p.hidx, b))), sig)
      else (p, Fault)
  }

  function TurnStart(p: Parser): (Parser, Sig)
    requires p.Valid()
  {
    if p.prefx[..3] != [0x1f, 0x8b, 0x08] then (p, Fault)
    else
      var q := p.(state := CheckEmpty);
      match p.recv
      case None => (q, Go)
      case Some(r) => (q.SetRecv(r.(time := FromLe32(p.prefx[4..8]), xflags := p.prefx[8], os := p.prefx[9])), Go)
  }

  /** One iteration of the state loop for gzip. */
  function Turn(p: Parser, b: byte): (Parser, Sig)
    requires p.Valid()
  {
    match p.state
    case Start => TurnStart(p)
    case CheckEmpty => (p.(state := if p.prefx[3] == 0 then HeadDone else CheckExtra), Go)
    case CheckExtra => if p.Flag(FEXTRA) then (p.(state := ExtraLen1), Wait) else (p.(state := CheckName), Go)
    case ExtraLen1 => (p.(state := ExtraLen2, xlen := Value(b), hidx := 0), Wait)
    case ExtraLen2 =>
      var q := p.(state := GetExtra, xlen := WithHigh(p.xlen, b));
      (if p.recv.Some? then q.SetRecv(p.recv.value.(extraLen := q.xlen)) else q, Wait)
    case GetExtra => TurnExtra(p, b)
    case CheckName => if p.Flag(FNAME) then (p.(state := GetName, hidx := 0), Wait) else (p.(state := CheckComment), Go)
    case GetName => TurnName(p, b)
    case CheckComment =>
      if p.Flag(FCOMMENT) then (p.(state := GetComment, hidx := 0), Wait) else (p.(state := CheckHcrc), Go)
    case GetComment => TurnComment(p, b)
    case CheckHcrc => if p.Flag(FHCRC) then (p.(state := Hcrc1), Wait) else (p.(state := CheckText), Go)
    case Hcrc1 => (p.(state := Hcrc2, hcrc := Value(b)), Wait)
    case Hcrc2 => (p.(state := CheckText, hcrc := p.hcrc + 256 * Value(b)), Go)
    case CheckText =>
      var q := p.(state := HeadDone);
      (if p.Flag(FTEXT) && p.recv.Some? then q.SetRecv(p.recv.value.(text := true)) else q, Go)
    case ZlibAdler => (p, Wait) // not a state of a gzip stream
    case HeadDone => (p, Go)
  }

  /** Position of a state on the way to HeadDone. */
  function Rank(s: HeadState): nat {
    match s
    case Start => 0 case CheckEmpty => 1 case CheckExtra => 2 case ExtraLen1 => 3 case ExtraLen2 => 4 case GetExtra => 5
    case CheckName => 6 case GetName => 7 case CheckComment => 8 case GetComment => 9 case CheckHcrc => 10
    case Hcrc1 => 11 case Hcrc2 => 12 case CheckText => 13 case ZlibAdler => 14 case HeadDone => 15
  }

  /** What an iteration never changes, and that a state left without waiting is not entered again. */
  ghost predicate Advances(p: Parser, r: (Parser, Sig)) {
    && r.0.Valid() && r.0.prefx == p.prefx && r.0.idx == p.idx
    && (r.1 == Go && p.state != HeadDone ==> Rank(p.state) < Rank(r.0.state) <= 15)
  }

  lemma FieldsAdvance(p: Parser, b: byte)
    requires p.Valid()
    ensures p.state == Start ==> Advances(p, TurnStart(p))
    ensures p.state == GetExtra ==> Advances(p, TurnExtra(p, b))
    ensures p.state == GetName ==> Advances(p, TurnName(p, b))
    ensures p.state == GetComment ==> Advances(p, TurnComment(p, b))
  {
    hide FromLe32, Put, CountDown;
  }

  /** States whose iteration is written out above. */
  predicate TakesField(s: HeadState) {
    s == Start || s == GetExtra || s == GetName || s == GetComment
  }

  predicate TakesNumber(s: HeadState) {
    s == ExtraLen1 || s == ExtraLen2 || s == Hcrc1 || s == Hcrc2
  }

  lemma FieldTurnAdvances(p: Parser, b: byte)
    requires p.Valid() && TakesField(p.state)
    ensures Advances(p, Turn(p, b))
  {
    hide TurnStart, TurnExtra, TurnName, TurnComment, Advances;
    FieldsAdvance(p, b);
  }

  lemma NumberTurnAdvances(p: Parser, b: byte)
    requires p.Valid() && TakesNumber(p.state)
    ensures Advances(p, Turn(p, b))
  {
    hide Value, WithHigh;
  }

  lemma CheckTurnAdvances(p: Parser, b: byte)
    requires p.Valid() && !TakesField(p.state) && !TakesNumber(p.state)
    ensures Advances(p, Turn(p, b))
  {
    hide HasFlag;
  }

  lemma TurnAdvances(p: Parser, b: byte)
    requires p.Valid()
    ensures Advances(p, Turn(p, b))
  {
    hide Turn, Advances, TakesField, TakesNumber;
    if TakesField(p.state) {
      FieldTurnAdvances(p, b);
    } else if TakesNumber(p.state) {
      NumberTurnAdvances(p, b);
    } else {
      CheckTurnAdvances(p, b);
    }
  }

  /** A field is read if and only if its bit is set in the fourth header byte. */
  lemma FlagTurns(p: Parser, b: byte)
    requires p.Valid()
    ensures p.state == CheckEmpty ==>
              Turn(p, b) == (p.(state := if p.prefx[3] == 0x00 then HeadDone else CheckExtra), Go)
    ensures p.state == CheckExtra ==>
              Turn(p, b) == if p.prefx[3] & 0x04 != 0 then (p.(state := ExtraLen1), Wait)
                            else (p.(state := CheckName), Go)
    ensures p.state == CheckName ==>
              Turn(p, b) == if p.prefx[3] & 0x08 != 0 then (p.(state := GetName, hidx := 0), Wait)
                            else (p.(state := CheckComment), Go)
    ensures p.state == CheckComment ==>
              Turn(p, b) == if p.prefx[3] & 0x10 != 0 then (p.(state := GetComment, hidx := 0), Wait)
                            else (p.(state := CheckHcrc), Go)
    ensures p.state == CheckHcrc ==>
              Turn(p, b) == if p.prefx[3] & 0x02 != 0 then (p.(state := Hcrc1), Wait) else (p.(state := CheckText), Go)
    ensures p.state == CheckText ==>
              Turn(p, b) == (p.(state := HeadDone,
                                recv := match p.recv
                                        case None => None
                                        case Some(r) => Some(r.(text := r.text || p.prefx[3] & 0x01 != 0))), Go)
  {
  }

  /** A byte of a field goes to the next place of its own buffer; a full buffer refuses the header. */
  lemma FieldTurns(p: Parser, b: byte)
    requires p.Valid()
    ensures var (q, sig) := Turn(p, b);
            && (p.state == GetExtra ==>
                 && (sig == Fault <==> p.recv.Some? && p.hidx >= |p.recv.value.extra|)
                 && (sig != Fault ==> sig == if p.xlen == 1 then Go else Wait)
                 && (sig == Go ==> q.state == CheckName && q.xlen == 1)
                 && (sig == Wait ==> q.state == GetExtra && q.xlen == (p.xlen + 0xffff) % 0x1_0000)
                 && (p.recv.Some? && sig != Fault ==>
                      && q.recv == Some(p.recv.value.(extra := p.recv.value.extra[p.hidx := b]))
                      && q.hidx == p.hidx + 1))
            && (p.state == GetName ==>
                 && (sig == Fault <==> p.recv.Some? && p.hidx >= |p.recv.value.name|)
                 && (sig != Fault ==> sig == (if b == 0 then Go else Wait)
                                      && q.state == if b == 0 then CheckComment else GetName)
                 && (p.recv.Some? && sig != Fault ==>
                      && q.recv == Some(p.recv.value.(name := p.recv.value.name[p.hidx := b]))
                      && q.hidx == p.hidx + 1))
            && (p.state == GetComment ==>
                 && (sig == Fault <==> p.recv.Some? && p.hidx >= |p.recv.value.comment|)
                 && (sig != Fault ==> sig == (if b == 0 then Go else Wait)
                                      && q.state == if b == 0 then CheckHcrc else GetComment)
                 && (p.recv.Some? && sig != Fault ==>
                      && q.recv == Some(p.recv.value.(comment := p.recv.value.comment[p.hidx := b]))
                      && q.hidx == p.hidx + 1))
  {
  }

  /** The state loop for one byte; a refused header leaves the state as it was on entry. */
  function Walk(entry: HeadState, p: Parser, b: byte): (r: (Parser, HdrRc))
    requires p.Valid()
    ensures r.0.Valid() && r.0.prefx == p.prefx && r.0.idx == p.idx
    decreases 15 - Rank(p.state)
  {
    if p.state == HeadDone then
      (if p.recv.Some? then p.SetRecv(p.recv.value.(done := true)) else p, HdrOk)
    else
      TurnAdvances(p, b);
      var (q, sig) := Turn(p, b);
      match sig
      case Go => Walk(entry, q, b)
      case Wait => (q, NeedMore)
      case Fault => (q.(state := entry), HdrError)
  }

  function GzipByte(p: Parser, b: byte): (r: (Parser, HdrRc))
    requires p.Valid()
    ensures r.0.Valid() && r.0.prefx == p.prefx && r.0.idx == p.idx
  {
    if p.idx < 9 then (p, NeedMore)
    else Walk(if p.idx == 9 then Start else p.state, p, b)
  }

  /** CMF and FLG form a multiple of 31, CM is 8 and CINFO at most 7. */
  predicate ZlibHeadOk(cmf: byte, flg: byte) {
    && (256 * Value(cmf) + Value(flg)) % 31 == 0
    && cmf & 0x0f == 0x08
    && cmf & 0xf0 <= 0x70
  }

  const FDICT: byte := 0x20

  function ZlibByte(p: Parser): (r: (Parser, HdrRc))
    requires p.Valid()
    ensures r.0.Valid() && r.0.prefx == p.prefx && r.0.idx == p.idx
  {
    if p.idx < 1 then (p.(state := Start), NeedMore)
    else match p.state
      case Start =>
        if p.idx != 1 then (p, NeedMore)
        else if !ZlibHeadOk(p.prefx[0], p.prefx[1]) then (p, HdrError)
        else if HasFlag(p.prefx[1], FDICT) then (p.(state := ZlibAdler), NeedMore)
        else (p.(state := HeadDone), HdrOk)
      case ZlibAdler =>
        if p.idx != 5 then (p, NeedMore)
        else
          var id := FromBe32(p.prefx[2..6]);
          (p.(state := HeadDone, dictAdler := id, adler := id, haveDict := false), NeedDict)
      case _ => (p, HdrOk)
  }

  function HeaderByte(format: Format, p: Parser, b: byte): (r: (Parser, HdrRc))
    requires p.Valid()
    ensures r.0.Valid() && r.0.idx == p.idx + 1
  {
    var q := p.(prefx := Put(p.prefx, p.idx, b));
    var (r, rc) := if format == Gzip then GzipByte(q, b) else ZlibByte(q);
    (r.(idx := r.idx + 1), rc)
  }

  /** Feeds bytes until the header is complete or refused: the parser, the number of bytes taken and the verdict. */
  function Feed(format: Format, p: Parser, s: seq<byte>): (r: (Parser, nat, HdrRc))
    requires p.Valid()
    ensures r.0.Valid() && r.1 <= |s| && (if r.2 == NeedMore then r.1 == |s| else r.1 > 0)
    decreases |s|
  {
    if s == [] then (p, 0, NeedMore)
    else
      var (q, rc) := HeaderByte(format, p, s[0]);
      if rc != NeedMore then (q, 1, rc) else Shift(1, Feed(format, q, s[1..]))
  }

  function Shift(n: nat, r: (Parser, nat, HdrRc)): (Parser, nat, HdrRc) {
    (r.0, n + r.1, r.2)
  }

  /** Two pieces of input are as good as one. */
  lemma {:induction false} FeedSplit(format: Format, p: Parser, a: seq<byte>, b: seq<byte>)
    requires p.Valid()
    ensures Feed(format, p, a + b) ==
            if Feed(format, p, a).2 != NeedMore then Feed(format, p, a)
            else Shift(|a|, Feed(format, Feed(format, p, a).0, b))
    decreases |a|
  {
    hide HeaderByte;
    if a == [] {
      assert a + b == b;
    } else {
      assert (a + b)[1..] == a[1..] + b && (a + b)[0] == a[0];
      FeedSplit(format, HeaderByte(format, p, a[0]).0, a[1..], b);
    }
  }

  /** Calls that offer their input piece by piece, until the header is complete or refused. */
  function FeedAll(format: Format, p: Parser, chunks: seq<seq<byte>>): (r: (Parser, nat, HdrRc))
    requires p.Valid()
    ensures r.0.Valid()
    decreases |chunks|
  {
    if chunks == [] then (p, 0, NeedMore)
    else
      var r := Feed(format, p, chunks[0]);
      if r.2 != NeedMore then r else Shift(r.1, FeedAll(format, r.0, chunks[1..]))
  }

  /** However the input is cut, the parser ends in the same place with the same result. */
  lemma {:induction false} ChunkIndependent(format: Format, p: Parser, chunks: seq<seq<byte>>)
    requires p.Valid()
    ensures FeedAll(format, p, chunks) == Feed(format, p, Flatten(chunks))
    decreases |chunks|
  {
    if chunks != [] {
      FeedSplit(format, p, chunks[0], Flatten(chunks[1..]));
      ChunkIndependent(format, Feed(format, p, chunks[0]).0, chunks[1..]);
    }
  }

  /** The dictionaries the inflate side takes: zlib streams name theirs. */
  predicate Accepts(format: Format, p: Parser, dictionary: seq<byte>) {
    |dictionary| <= Adler.ZEDC_DICT_LEN && (format == Zlib ==> Adler.DictId(dictionary) == p.dictAdler)
  }

  // ---- trailers ----

  datatype TrailRc = TrailOk | TrailMore | TrailError

  function TrailLen(format: Format): nat {
    match format
    case Defl => 0
    case Zlib => 4
    case Gzip => 8
  }

  /** The checksum comparison that follows the last byte of got. */
  predicate Refused(format: Format, got: seq<byte>, crc: bv32, adler: bv32) {
    || (format == Gzip && (|got| == 4 || |got| == 8) && FromLe32(got[..4]) != crc)
    || (format == Zlib && |got| == 4 && FromBe32(got) != adler)
  }

  /** One call: the trailer bytes collected so far, the number taken from the input and the verdict. */
  function Take(format: Format, got: seq<byte>, crc: bv32, adler: bv32, s: seq<byte>): (r: (seq<byte>, nat, TrailRc))
    requires |got| <= TrailLen(format)
    ensures |r.0| == |got| + r.1 && |r.0| <= TrailLen(format) && r.1 <= |s|
    ensures r.2 == TrailMore ==> r.1 == |s| && |r.0| < TrailLen(format)
    ensures r.2 == TrailOk ==> |r.0| == TrailLen(format)
    decreases |s|
  {
    if |got| == TrailLen(format) then (got, 0, TrailOk)
    else if s == [] then (got, 0, TrailMore)
    else
      var g := got + [s[0]];
      if Refused(format, g, crc, adler) then (g, 1, TrailError)
      else
        Later(1, Take(format, g, crc, adler, s[1..]))
  }

  /** How often a comparison has failed while these bytes were collected. */
  function Refusals(format: Format, got: seq<byte>, crc: bv32, adler: bv32): nat {
    if got == [] then 0
    else Refusals(format, got[..|got| - 1], crc, adler) + if Refused(format, got, crc, adler) then 1 else 0
  }

  /** The complete trailer got carries the checksum of the data. */
  predicate Carries(format: Format, got: seq<byte>, crc: bv32, adler: bv32)
    requires |got| == TrailLen(format)
  {
    match format
    case Defl => true
    case Gzip => FromLe32(got[..4]) == crc
    case Zlib => FromBe32(got) == adler
  }

  function Later(n: nat, r: (seq<byte>, nat, TrailRc)): (seq<byte>, nat, TrailRc) {
    (r.0, n + r.1, r.2)
  }
}
