/** The header parsers recover what the deflate side wrote. */
module HeaderProofs {
  import opened Bits
  import opened Words
  import opened Framing
  import opened HeaderSpec
  import Adler

  /** States the loop leaves without looking at the byte. */
  predicate IsCheck(s: HeadState) {
    || s == CheckEmpty || s == CheckExtra || s == CheckName || s == CheckComment || s == CheckHcrc || s == CheckText
    || s == HeadDone
  }

  lemma CheckTurn(p: Parser, b: byte)
    requires p.Valid() && IsCheck(p.state)
    ensures Turn(p, b) == Turn(p, 0) && Turn(p, b).1 != Fault && (Turn(p, b).1 == Go ==> IsCheck(Turn(p, b).0.state))
  {
    hide TurnStart, TurnExtra, TurnName, TurnComment, HasFlag;
  }

  lemma {:induction false} ChecksIgnoreByte(e: HeadState, p: Parser, b: byte)
    requires p.Valid() && IsCheck(p.state)
    ensures Walk(e, p, b) == Walk(p.state, p, 0)
    decreases 15 - Rank(p.state)
  {
    hide Turn;
    if p.state != HeadDone {
      CheckTurn(p, b);
      TurnAdvances(p, b);
      var (q, sig) := Turn(p, b);
      if sig == Go {
        ChecksIgnoreByte(e, q, b);
        ChecksIgnoreByte(p.state, q, 0);
      }
    }
  }

  /** The rest of the loop from a check state on, then the bytes that follow. */
  function Cont(p: Parser, s: seq<byte>): (Parser, nat, HdrRc)
    requires p.Valid()
  {
    var (q, rc) := Walk(p.state, p, 0);
    var r := q.(idx := q.idx + 1);
    if rc != NeedMore then (r, 0, rc) else Feed(Gzip, r, s)
  }

  lemma ContGo(p: Parser, s: seq<byte>)
    requires p.Valid() && IsCheck(p.state) && p.state != HeadDone && Turn(p, 0).1 == Go
    ensures Turn(p, 0).0.Valid() && Cont(p, s) == Cont(Turn(p, 0).0, s)
  {
    TurnAdvances(p, 0);
    ChecksIgnoreByte(p.state, Turn(p, 0).0, 0);
    hide Turn;
  }

  lemma ContWait(p: Parser, s: seq<byte>)
    requires p.Valid() && IsCheck(p.state) && p.state != HeadDone && Turn(p, 0).1 == Wait
    ensures Turn(p, 0).0.Valid()
    ensures Cont(p, s) == Feed(Gzip, Turn(p, 0).0.(idx := p.idx + 1), s)
  {
    TurnAdvances(p, 0);
    hide Turn;
  }

  function Stored(p: Parser, b: byte): (q: Parser)
    requires p.Valid()
    ensures q.Valid()
  {
    p.(prefx := Put(p.prefx, p.idx, b))
  }

  lemma FeedFirst(format: Format, p: Parser, b: byte, tail: seq<byte>)
    requires p.Valid()
    ensures Feed(format, p, [b] + tail) ==
            var (q, rc) := HeaderByte(format, p, b);
            if rc != NeedMore then (q, 1, rc) else Shift(1, Feed(format, q, tail))
  {
    hide HeaderByte;
    assert ([b] + tail)[1..] == tail;
  }

  lemma WaitByte(p: Parser, b: byte, tail: seq<byte>)
    requires p.Valid() && p.idx >= 10 && p.state != HeadDone && Turn(Stored(p, b), b).1 == Wait
    ensures Turn(Stored(p, b), b).0.Valid()
    ensures Feed(Gzip, p, [b] + tail) == Shift(1, Feed(Gzip, Turn(Stored(p, b), b).0.(idx := p.idx + 1), tail))
  {
    hide Turn, Put, Feed;
    FeedFirst(Gzip, p, b, tail);
    TurnAdvances(Stored(p, b), b);

  }

  lemma GoByte(p: Parser, b: byte, tail: seq<byte>)
    requires p.Valid() && (p.idx >= 10 || (p.idx == 9 && p.state == Start))
    requires p.state != HeadDone && Turn(Stored(p, b), b).1 == Go
    requires IsCheck(Turn(Stored(p, b), b).0.state)
    ensures Turn(Stored(p, b), b).0.Valid()
    ensures Feed(Gzip, p, [b] + tail) == Shift(1, Cont(Turn(Stored(p, b), b).0, tail))
  {
    hide Turn, Put, Feed;
    FeedFirst(Gzip, p, b, tail);
    TurnAdvances(Stored(p, b), b);
    ChecksIgnoreByte(p.state, Turn(Stored(p, b), b).0, b);

  }

  /** The parser stands in state s of a header with the given FLG byte. */
  ghost predicate At(p: Parser, s: HeadState, flg: byte) {
    p.Valid() && p.state == s && p.prefx[3] == flg && p.idx >= 9
  }

  // ---- what the receive buffers hold afterwards ----

  function Overwrite(buf: seq<byte>, at: nat, s: seq<byte>): seq<byte> {
    if at + |s| <= |buf| then buf[..at] + s + buf[at + |s|..] else buf
  }

  function NameRecv(r: Option<Recv>, at: nat, s: seq<byte>): Option<Recv> {
    if r.None? then None else Some(r.value.(name := Overwrite(r.value.name, at, s)))
  }

  function CommentRecv(r: Option<Recv>, at: nat, s: seq<byte>): Option<Recv> {
    if r.None? then None else Some(r.value.(comment := Overwrite(r.value.comment, at, s)))
  }

  function ExtraRecv(r: Option<Recv>, at: nat, s: seq<byte>): Option<Recv> {
    if r.None? then None else Some(r.value.(extra := Overwrite(r.value.extra, at, s)))
  }

  function LenRecv(r: Option<Recv>, n: nat): Option<Recv> {
    if r.None? then None else Some(r.value.(extraLen := n))
  }

  function FinishRecv(r: Option<Recv>, flg: byte): Option<Recv> {
    if r.None? then None else Some(r.value.(text := r.value.text || HasFlag(flg, FTEXT), done := true))
  }

  lemma OverwriteStep(buf: seq<byte>, at: nat, b: byte, s: seq<byte>)
    requires at + 1 + |s| <= |buf|
    ensures Overwrite(Put(buf, at, b), at + 1, s) == Overwrite(buf, at, [b] + s)
  {
  }

  lemma OverwriteOne(buf: seq<byte>, at: nat, b: byte)
    requires at < |buf|
    ensures Put(buf, at, b) == Overwrite(buf, at, [b])
  {
  }

  lemma Cons(s: seq<byte>, tail: seq<byte>)
    requires s != []
    ensures s + tail == [s[0]] + (s[1..] + tail) && s == [s[0]] + s[1..]
  {
  }

  // ---- the variable fields ----

  ghost predicate Ends(r: (Parser, nat, HdrRc), n: nat, out: Option<Recv>) {
    r.1 == n && r.2 == HdrOk && r.0.state == HeadDone && r.0.recv == out
  }

  lemma TextParses(p: Parser, flg: byte, tail: seq<byte>)
    requires At(p, CheckText, flg)
    ensures Ends(Cont(p, tail), 0, FinishRecv(p.recv, flg))
  {
    ContGo(p, tail);
  }

  lemma HcrcTurns(p: Parser, flg: byte, b: byte)
    requires p.idx >= 10
    ensures At(p, Hcrc1, flg) ==> var (q, sig) := Turn(Stored(p, b), b);
            sig == Wait && At(q.(idx := p.idx + 1), Hcrc2, flg) && q.recv == p.recv
    ensures At(p, Hcrc2, flg) ==> var (q, sig) := Turn(Stored(p, b), b);
            sig == Go && At(q, CheckText, flg) && q.recv == p.recv
  {
    hide Value;
  }

  lemma HcrcParses(p: Parser, flg: byte, s: seq<byte>, tail: seq<byte>)
    requires At(p, CheckHcrc, flg) && |s| == if HasFlag(flg, FHCRC) then 2 else 0
    ensures Ends(Cont(p, s + tail), |s|, FinishRecv(p.recv, flg))
  {
    hide HasFlag, Feed, FinishRecv, Ends, Cont, TurnStart, TurnExtra, TurnName, TurnComment;
    if s == [] {
      assert s + tail == tail;
      ContGo(p, tail);
      TextParses(Turn(p, 0).0, flg, tail);
    } else {
      ContWait(p, s + tail);
      HcrcBytes(Turn(p, 0).0.(idx := p.idx + 1), flg, s, tail);
    }
  }

  lemma HcrcBytes(q: Parser, flg: byte, s: seq<byte>, tail: seq<byte>)
    requires At(q, Hcrc1, flg) && q.idx >= 10 && |s| == 2
    ensures Ends(Feed(Gzip, q, s + tail), 2, FinishRecv(q.recv, flg))
  {
    hide Feed, FinishRecv, Ends, Cont, Turn, Stored;
    Cons(s, tail);
    Cons(s[1..], tail);
    assert s[1..][1..] + tail == tail;
    HcrcTurns(q, flg, s[0]);
    WaitByte(q, s[0], s[1..] + tail);
    var q1 := Turn(Stored(q, s[0]), s[0]).0.(idx := q.idx + 1);
    HcrcTurns(q1, flg, s[1]);
    GoByte(q1, s[1], tail);
    TextParses(Turn(Stored(q1, s[1]), s[1]).0, flg, tail);
    EndsShift(Feed(Gzip, q1, s[1..] + tail), 1, FinishRecv(q.recv, flg), 1);
    EndsShift(Cont(Turn(Stored(q1, s[1]), s[1]).0, tail), 0, FinishRecv(q.recv, flg), 1);
  }

  lemma EndsShift(r: (Parser, nat, HdrRc), n: nat, out: Option<Recv>, k: nat)
    ensures Ends(r, n, out) ==> Ends(Shift(k, r), n + k, out)
  {
  }

  /** A zero-terminated name is taken up to and including its terminator. */
  lemma {:induction false} NameBytes(p: Parser, flg: byte, s: seq<byte>, tail: seq<byte>) returns (q: Parser)
    requires At(p, GetName, flg) && p.idx >= 10 && 0 !in s
    requires p.recv.Some? ==> p.hidx + |s| + 1 <= |p.recv.value.name|
    ensures At(q, CheckComment, flg) && q.recv == NameRecv(p.recv, p.hidx, s + [0])
    ensures Feed(Gzip, p, s + [0] + tail) == Shift(|s| + 1, Cont(q, tail))
    decreases |s|
  {
    hide Feed, Cont;
    if s == [] {
      assert s + [0] + tail == [0] + tail && s + [0] == [0];
      q := Turn(Stored(p, 0), 0).0;
      GoByte(p, 0, tail);
      if p.recv.Some? {
        OverwriteOne(p.recv.value.name, p.hidx, 0);
      }
    } else {
      Cons(s, [0] + tail);
      assert s + [0] + tail == [s[0]] + (s[1..] + [0] + tail);
      WaitByte(p, s[0], s[1..] + [0] + tail);
      var p1 := Turn(Stored(p, s[0]), s[0]).0.(idx := p.idx + 1);
      q := NameBytes(p1, flg, s[1..], tail);
      assert s + [0] == [s[0]] + (s[1..] + [0]);
      if p.recv.Some? {
        OverwriteStep(p.recv.value.name, p.hidx, s[0], s[1..] + [0]);
      }
    }
  }

  lemma {:induction false} CommentBytes(p: Parser, flg: byte, s: seq<byte>, tail: seq<byte>) returns (q: Parser)
    requires At(p, GetComment, flg) && p.idx >= 10 && 0 !in s
    requires p.recv.Some? ==> p.hidx + |s| + 1 <= |p.recv.value.comment|
    ensures At(q, CheckHcrc, flg) && q.recv == CommentRecv(p.recv, p.hidx, s + [0])
    ensures Feed(Gzip, p, s + [0] + tail) == Shift(|s| + 1, Cont(q, tail))
    decreases |s|
  {
    hide Feed, Cont;
    if s == [] {
      assert s + [0] + tail == [0] + tail && s + [0] == [0];
      q := Turn(Stored(p, 0), 0).0;
      GoByte(p, 0, tail);
      if p.recv.Some? {
        OverwriteOne(p.recv.value.comment, p.hidx, 0);
      }
    } else {
      Cons(s, [0] + tail);
      assert s + [0] + tail == [s[0]] + (s[1..] + [0] + tail);
      WaitByte(p, s[0], s[1..] + [0] + tail);
      var p1 := Turn(Stored(p, s[0]), s[0]).0.(idx := p.idx + 1);
      q := CommentBytes(p1, flg, s[1..], tail);
      assert s + [0] == [s[0]] + (s[1..] + [0]);
      if p.recv.Some? {
        OverwriteStep(p.recv.value.comment, p.hidx, s[0], s[1..] + [0]);
      }
    }
  }

  lemma ExtraTurn(p: Parser, flg: byte, b: byte)
    requires At(p, GetExtra, flg) && p.idx >= 10 && p.xlen > 0 && (p.recv.Some? ==> p.hidx < |p.recv.value.extra|)
    ensures var (q, sig) := Turn(Stored(p, b), b);
            && q.recv == (if p.recv.None? then None
                          else Some(p.recv.value.(extra := Put(p.recv.value.extra, p.hidx, b))))
            && if p.xlen == 1 then sig == Go && At(q, CheckName, flg)
               else sig == Wait && At(q.(idx := p.idx + 1), GetExtra, flg) && q.xlen == p.xlen - 1
                    && (p.recv.Some? ==> q.hidx == p.hidx + 1)
  {
    hide Turn, Put, Stored;
    StoredKeeps(p, b);
    InExtra(Stored(p, b), b);
    ExtraOnce(Stored(p, b), b);
    hide TurnExtra;
  }

  lemma ExtraOnce(p: Parser, b: byte)
    requires p.Valid() && p.xlen > 0 && (p.recv.Some? ==> p.hidx < |p.recv.value.extra|)
    ensures var n := p.(recv := if p.recv.None? then None
                                else Some(p.recv.value.(extra := Put(p.recv.value.extra, p.hidx, b))),
                        hidx := if p.recv.None? then p.hidx else p.hidx + 1);
            TurnExtra(p, b) == if p.xlen == 1 then (n.(state := CheckName), Go) else (n.(xlen := p.xlen - 1), Wait)
  {
    hide Put;
  }

  lemma InExtra(p: Parser, b: byte)
    requires p.Valid() && p.state == GetExtra
    ensures Turn(p, b) == TurnExtra(p, b)
  {
    hide TurnExtra;
  }

  lemma StoredKeeps(p: Parser, b: byte)
    requires p.Valid() && p.idx >= 10
    ensures At(Stored(p, b), p.state, p.prefx[3]) && Stored(p, b) == p.(prefx := Stored(p, b).prefx)
  {
  }

  lemma ExtraRecvStep(r: Recv, at: nat, b: byte, s: seq<byte>)
    requires at + 1 + |s| <= |r.extra|
    ensures ExtraRecv(Some(r.(extra := Put(r.extra, at, b))), at + 1, s) == ExtraRecv(Some(r), at, [b] + s)
    ensures Some(r.(extra := Put(r.extra, at, b))) == ExtraRecv(Some(r), at, [b])
  {
    OverwriteStep(r.extra, at, b, s);
    OverwriteOne(r.extra, at, b);
    hide Put, Overwrite;
  }

  /** The counted extra bytes; there is at least one. */
  lemma {:induction false} ExtraBytes(p: Parser, flg: byte, s: seq<byte>, tail: seq<byte>) returns (q: Parser)
    requires At(p, GetExtra, flg) && p.idx >= 10 && s != [] && p.xlen == |s|
    requires p.recv.Some? ==> p.hidx + |s| <= |p.recv.value.extra|
    ensures At(q, CheckName, flg) && q.recv == ExtraRecv(p.recv, p.hidx, s)
    ensures Feed(Gzip, p, s + tail) == Shift(|s|, Cont(q, tail))
    decreases |s|
  {
    hide Feed, Cont, Turn, Stored, Overwrite;
    Cons(s, tail);
    ExtraTurn(p, flg, s[0]);
    if p.recv.Some? {
      ExtraRecvStep(p.recv.value, p.hidx, s[0], s[1..]);
    }
    if |s| == 1 {
      assert s[1..] + tail == tail && s == [s[0]];
      q := Turn(Stored(p, s[0]), s[0]).0;
      GoByte(p, s[0], tail);
    } else {
      WaitByte(p, s[0], s[1..] + tail);
      var p1 := Turn(Stored(p, s[0]), s[0]).0.(idx := p.idx + 1);
      q := ExtraBytes(p1, flg, s[1..], tail);
    }
  }

  lemma CommentParses(p: Parser, flg: byte, c: seq<byte>, s: seq<byte>, tail: seq<byte>)
    requires At(p, CheckComment, flg) && 0 !in c && (c != [] <==> HasFlag(flg, FCOMMENT))
    requires p.recv.Some? && c != [] ==> |c| + 1 <= |p.recv.value.comment|
    requires |s| == if HasFlag(flg, FHCRC) then 2 else 0
    ensures Ends(Cont(p, CString(c) + s + tail), |CString(c) + s|, FinishRecv(CommentRecv(p.recv, 0, CString(c)), flg))
  {
    hide HasFlag, Feed, Cont, Ends, FinishRecv;
    var out := FinishRecv(CommentRecv(p.recv, 0, CString(c)), flg);
    if c == [] {
      assert CString(c) + s == s;
      ContGo(p, s + tail);
      NothingWritten(p.recv);
      HcrcParses(Turn(p, 0).0, flg, s, tail);
    } else {
      ContWait(p, CString(c) + s + tail);
      var q := CommentBytes(Turn(p, 0).0.(idx := p.idx + 1), flg, c, s + tail);
      Regroup(CString(c), s, tail);
      HcrcParses(q, flg, s, tail);
      EndsShift(Cont(q, s + tail), |s|, out, |CString(c)|);
    }
  }

  lemma NameParses(p: Parser, flg: byte, n: seq<byte>, c: seq<byte>, s: seq<byte>, tail: seq<byte>)
    requires At(p, CheckName, flg) && 0 !in n && (n != [] <==> HasFlag(flg, FNAME))
    requires 0 !in c && (c != [] <==> HasFlag(flg, FCOMMENT))
    requires p.recv.Some? && n != [] ==> |n| + 1 <= |p.recv.value.name|
    requires p.recv.Some? && c != [] ==> |c| + 1 <= |p.recv.value.comment|
    requires |s| == if HasFlag(flg, FHCRC) then 2 else 0
    ensures Ends(Cont(p, CString(n) + (CString(c) + s) + tail), |CString(n) + (CString(c) + s)|,
                 FinishRecv(CommentRecv(NameRecv(p.recv, 0, CString(n)), 0, CString(c)), flg))
  {
    hide HasFlag, Feed, Cont, Ends, FinishRecv;
    var out := FinishRecv(CommentRecv(NameRecv(p.recv, 0, CString(n)), 0, CString(c)), flg);
    if n == [] {
      assert CString(n) + (CString(c) + s) == CString(c) + s;
      ContGo(p, CString(c) + s + tail);
      NothingWritten(p.recv);
      CommentParses(Turn(p, 0).0, flg, c, s, tail);
    } else {
      ContWait(p, CString(n) + (CString(c) + s) + tail);
      var q := NameBytes(Turn(p, 0).0.(idx := p.idx + 1), flg, n, CString(c) + s + tail);
      Regroup(CString(n), CString(c) + s, tail);
      CommentParses(q, flg, c, s, tail);
      EndsShift(Cont(q, CString(c) + s + tail), |CString(c) + s|, out, |CString(n)|);
    }
  }

  lemma NothingWritten(r: Option<Recv>)
    ensures CommentRecv(r, 0, []) == r && NameRecv(r, 0, []) == r
  {
    if r.Some? {
      assert Overwrite(r.value.name, 0, []) == r.value.name;
      assert Overwrite(r.value.comment, 0, []) == r.value.comment;
    }
  }

  lemma LengthBytes(n: nat)
    requires n < XLEN_RANGE
    ensures WithHigh(Value(LowByte(n)), HighByte(n)) == n
  {
    BytesOf(n);
    hide Value, LowByte, HighByte;
  }

  lemma BytesOf(n: nat)
    ensures Value(LowByte(n)) == n % 256 && Value(HighByte(n)) == n / 256 % 256
  {
    OneByte(n % 256);
    OneByte(n / 256 % 256);
    hide Value;
  }

  lemma OneByte(n: nat)
    requires n < 256
    ensures Value(n as byte) == n
  {
  }

  lemma FlagTurn(p: Parser, flg: byte)
    requires At(p, CheckExtra, flg) && HasFlag(flg, FEXTRA)
    ensures Turn(p, 0) == (p.(state := ExtraLen1), Wait)
  {
    hide HasFlag;
  }

  lemma LengthTurns(p: Parser, flg: byte, b: byte)
    requires p.idx >= 10
    ensures At(p, ExtraLen1, flg) ==> var (q, sig) := Turn(Stored(p, b), b);
            sig == Wait && At(q.(idx := p.idx + 1), ExtraLen2, flg) && q.recv == p.recv && q.xlen == Value(b)
            && q.hidx == 0
    ensures At(p, ExtraLen2, flg) ==> var (q, sig) := Turn(Stored(p, b), b);
            sig == Wait && At(q.(idx := p.idx + 1), GetExtra, flg) && q.xlen == WithHigh(p.xlen, b) && q.hidx == p.hidx
            && q.recv == LenRecv(p.recv, q.xlen)
  {
    hide Value, WithHigh, Put, Stored;
    if p.Valid() {
      StoredKeeps(p, b);
    }
  }

  /** The two length bytes bring the parser to the first extra byte. */
  lemma LengthParses(p: Parser, flg: byte, lo: byte, hi: byte, tail: seq<byte>) returns (q: Parser)
    requires At(p, CheckExtra, flg) && HasFlag(flg, FEXTRA)
    ensures At(q, GetExtra, flg) && q.idx >= 10 && q.hidx == 0 && q.xlen == WithHigh(Value(lo), hi)
    ensures q.recv == LenRecv(p.recv, q.xlen)
    ensures Cont(p, [lo, hi] + tail) == Shift(2, Feed(Gzip, q, tail))
  {
    hide HasFlag, Feed, Cont, Value, WithHigh, Turn, Stored;
    FlagTurn(p, flg);
    ContWait(p, [lo, hi] + tail);
    var q1 := Turn(p, 0).0.(idx := p.idx + 1);
    assert [lo, hi] + tail == [lo] + ([hi] + tail);
    LengthTurns(q1, flg, lo);
    WaitByte(q1, lo, [hi] + tail);
    var q2 := Turn(Stored(q1, lo), lo).0.(idx := q1.idx + 1);
    LengthTurns(q2, flg, hi);
    WaitByte(q2, hi, tail);
    q := Turn(Stored(q2, hi), hi).0.(idx := q2.idx + 1);
  }

  function ExtraPart(r: Option<Recv>, e: Option<seq<byte>>): Option<Recv> {
    if e.None? then r else ExtraRecv(LenRecv(r, |e.value|), 0, e.value)
  }

  lemma ExtraParses(p: Parser, flg: byte, e: Option<seq<byte>>, n: seq<byte>, c: seq<byte>, s: seq<byte>,
                    tail: seq<byte>)
    requires At(p, CheckExtra, flg) && (e.Some? <==> HasFlag(flg, FEXTRA)) && (e.Some? ==> 0 < |e.value| < XLEN_RANGE)
    requires 0 !in n && (n != [] <==> HasFlag(flg, FNAME))
    requires 0 !in c && (c != [] <==> HasFlag(flg, FCOMMENT))
    requires p.recv.Some? && e.Some? ==> |e.value| <= |p.recv.value.extra|
    requires p.recv.Some? && n != [] ==> |n| + 1 <= |p.recv.value.name|
    requires p.recv.Some? && c != [] ==> |c| + 1 <= |p.recv.value.comment|
    requires |s| == if HasFlag(flg, FHCRC) then 2 else 0
    ensures var rest := LengthPrefixed(e) + (CString(n) + (CString(c) + s));
            Ends(Cont(p, rest + tail), |rest|,
                 FinishRecv(CommentRecv(NameRecv(ExtraPart(p.recv, e), 0, CString(n)), 0, CString(c)), flg))
  {
    hide HasFlag, Feed, Cont, Ends, FinishRecv, Value, WithHigh, CommentRecv, NameRecv, LowByte, HighByte;
    var names := CString(n) + (CString(c) + s);
    hide CString;
    var out := FinishRecv(CommentRecv(NameRecv(ExtraPart(p.recv, e), 0, CString(n)), 0, CString(c)), flg);
    if e.None? {
      assert [] + names == names;
      ContGo(p, names + tail);
      NameParses(Turn(p, 0).0, flg, n, c, s, tail);
    } else {
      var x := e.value;
      var lo, hi := LowByte(|x|), HighByte(|x|);
      LengthBytes(|x|);
      assert [lo, hi] + x + names + tail == [lo, hi] + (x + (names + tail));
      var q := LengthParses(p, flg, lo, hi, x + (names + tail));
      var q1 := ExtraBytes(q, flg, x, names + tail);
      NameParses(q1, flg, n, c, s, tail);
      EndsShift(Cont(q1, names + tail), |names|, out, |x|);
      EndsShift(Feed(Gzip, q, x + (names + tail)), |x| + |names|, out, 2);
    }
  }

  // ---- the fixed part ----

  lemma EarlyByte(p: Parser, b: byte, tail: seq<byte>)
    requires p.Valid() && p.idx < 9
    ensures Feed(Gzip, p, [b] + tail) == Shift(1, Feed(Gzip, Stored(p, b).(idx := p.idx + 1), tail))
  {
    FeedFirst(Gzip, p, b, tail);
    hide Feed, Walk, Put;
  }

  lemma {:induction false} FixedBytes(p: Parser, s: seq<byte>, tail: seq<byte>)
    requires p.Valid() && p.idx + |s| == 9
    ensures Feed(Gzip, p, s + tail) ==
            Shift(|s|, Feed(Gzip, p.(idx := 9, prefx := p.prefx[..p.idx] + s + p.prefx[9..]), tail))
    decreases |s|
  {
    hide Feed;
    if s == [] {
      assert s + tail == tail && p.prefx[..9] + s + p.prefx[9..] == p.prefx;
    } else {
      Cons(s, tail);
      EarlyByte(p, s[0], s[1..] + tail);
      var q := Stored(p, s[0]).(idx := p.idx + 1);
      FixedBytes(q, s[1..], tail);
      assert q.prefx[..q.idx] + s[1..] + q.prefx[9..] == p.prefx[..p.idx] + s + p.prefx[9..];
    }
  }

  lemma FlgBits(h: Option<GzHead>)
    ensures HasFlag(Flg(h), FTEXT) <==> h.Some? && h.value.xflags & 0x01 != 0
    ensures HasFlag(Flg(h), FHCRC) <==> h.Some? && h.value.xflags & 0x02 != 0
    ensures HasFlag(Flg(h), FEXTRA) <==> h.Some? && h.value.extra.Some?
    ensures HasFlag(Flg(h), FNAME) <==> h.Some? && Text(h.value.name) != []
    ensures HasFlag(Flg(h), FCOMMENT) <==> h.Some? && Text(h.value.comment) != []
    ensures Flg(h) == 0 ==> GzipHeaderTail(h) == []
    ensures h.None? ==> Flg(h) == 0
  {
  }

  /** Everything behind the ten fixed bytes. */
  function GzipHeaderTail(h: Option<GzHead>): seq<byte> {
    ExtraField(h) + (NameField(h) + (CommentField(h) + HcrcField(h)))
  }

  function FixedRecv(r: Option<Recv>, h: Option<GzHead>, now: bv32): Option<Recv> {
    if r.None? then None
    else Some(r.value.(time := if h.Some? then h.value.time else now, xflags := 0x04,
                       os := if h.Some? then h.value.os else 0xff))
  }

  /** The fixed part ends in front of the flag checks, with time and operating system recorded. */
  lemma FixedParses(p: Parser, h: Option<GzHead>, now: bv32, tail: seq<byte>) returns (q: Parser)
    requires p.Valid() && p.state == Start && p.idx == 0
    ensures At(q, CheckEmpty, Flg(h)) && q.recv == FixedRecv(p.recv, h, now)
    ensures Feed(Gzip, p, GzipFixed(h, now) + tail) == Shift(10, Cont(q, tail))
  {
    var f := GzipFixed(h, now);
    assert f == f[..9] + [f[9]];
    Regroup(f[..9], [f[9]], tail);
    FixedBytes(p, f[..9], [f[9]] + tail);
    var p1 := p.(idx := 9, prefx := p.prefx[..0] + f[..9] + p.prefx[9..]);
    var s := Stored(p1, f[9]);
    assert s.prefx[..10] == f;
    FixedImage(h, now, s.prefx);
    hide GzipFixed, Flg, Feed, Cont, FromLe32;
    q := Turn(s, f[9]).0;
    GoByte(p1, f[9], tail);
  }

  lemma FixedImage(h: Option<GzHead>, now: bv32, prefx: seq<byte>)
    requires |prefx| >= 10 && prefx[..10] == GzipFixed(h, now)
    ensures prefx[..3] == [0x1f, 0x8b, 0x08] && prefx[3] == Flg(h) && prefx[8] == 0x04
    ensures FromLe32(prefx[4..8]) == (if h.Some? then h.value.time else now)
    ensures prefx[9] == if h.Some? then h.value.os else 0xff
  {
    var time := if h.Some? then h.value.time else now;
    WordRoundTrip(time);
    hide Flg, FromLe32, Le32;
    var f := GzipFixed(h, now);
    assert prefx[..3] == f[..3] && prefx[4..8] == f[4..8] == Le32(time);
    assert prefx[3] == f[3] && prefx[8] == f[8] && prefx[9] == f[9];
  }

  // ---- round trips ----

  /** The receive buffers are large enough for the header. */
  predicate Fits(r: Option<Recv>, h: Option<GzHead>) {
    r.Some? && h.Some? ==>
      && |Text(h.value.extra)| <= |r.value.extra|
      && (Text(h.value.name) != [] ==> |Text(h.value.name)| + 1 <= |r.value.name|)
      && (Text(h.value.comment) != [] ==> |Text(h.value.comment)| + 1 <= |r.value.comment|)
  }

  /** What the reader of a header learns: every field that was set, its text flag, time and operating system. */
  predicate Recovers(out: Recv, was: Recv, h: Option<GzHead>, now: bv32) {
    && out.done && out.xflags == 0x04
    && match h
       case None => out == was.(time := now, os := 0xff, xflags := 0x04, done := true)
       case Some(g) =>
         && out.time == g.time && out.os == g.os
         && out.text == (was.text || g.xflags & 0x01 != 0)
         && (if g.extra.Some? then out.extraLen == |g.extra.value| && g.extra.value <= out.extra
             else out.extraLen == was.extraLen && out.extra == was.extra)
         && (if Text(g.name) != [] then Text(g.name) + [0] <= out.name else out.name == was.name)
         && (if Text(g.comment) != [] then Text(g.comment) + [0] <= out.comment else out.comment == was.comment)
  }

  /** The receive record after a whole header. */
  function Received(r: Option<Recv>, h: Option<GzHead>, now: bv32): Option<Recv> {
    var f := FixedRecv(r, h, now);
    match h
    case None => FinishRecv(f, 0)
    case Some(g) =>
      FinishRecv(CommentRecv(NameRecv(ExtraPart(f, g.extra), 0, CString(Text(g.name))), 0, CString(Text(g.comment))),
                 Flg(h))
  }

  lemma OverwriteStarts(buf: seq<byte>, s: seq<byte>)
    requires |s| <= |buf|
    ensures s <= Overwrite(buf, 0, s)
  {
  }

  lemma NothingFlagged()
    ensures !HasFlag(0, FTEXT)
  {
  }

  lemma ReceivedRecovers(r: Option<Recv>, h: Option<GzHead>, now: bv32)
    requires Fits(r, h) && r.Some?
    ensures Received(r, h, now).Some? && Recovers(Received(r, h, now).value, r.value, h, now)
  {
    hide Flg, Overwrite;
    FlgBits(h);
    NothingFlagged();
    hide HasFlag;
    NothingWritten(r);
    if h.Some? {
      OverwriteStarts(r.value.name, CString(Text(h.value.name)));
      OverwriteStarts(r.value.comment, CString(Text(h.value.comment)));
      OverwriteStarts(r.value.extra, Text(h.value.extra));
    }
  }

  lemma HeaderEnds(p: Parser, h: Option<GzHead>, now: bv32, tail: seq<byte>)
    requires p.Valid() && p.state == Start && p.idx == 0
    requires h.Some? ==> h.value.Valid() && (h.value.extra.Some? ==> 0 < |h.value.extra.value| < XLEN_RANGE)
    requires Fits(p.recv, h)
    ensures Ends(Feed(Gzip, p, GzipHeader(h, now) + tail), |GzipHeader(h, now)|, Received(p.recv, h, now))
  {
    hide Flg, GzipFixed, Feed, Cont, HasFlag, Received, ExtraField, NameField, CommentField, HcrcField;
    var rest := GzipHeaderTail(h);
    assert GzipHeader(h, now) == GzipFixed(h, now) + rest;
    Regroup(GzipFixed(h, now), rest, tail);
    var q := FixedParses(p, h, now, rest + tail);
    var out := Received(p.recv, h, now);
    VariableEnds(q, h, tail, p.recv, now);
    hide GzipHeaderTail;
    EndsShift(Cont(q, rest + tail), |rest|, out, 10);
  }

  lemma VariableEnds(q: Parser, h: Option<GzHead>, tail: seq<byte>, r: Option<Recv>, now: bv32)
    requires At(q, CheckEmpty, Flg(h)) && q.recv == FixedRecv(r, h, now) && Fits(r, h)
    requires h.Some? ==> h.value.Valid() && (h.value.extra.Some? ==> 0 < |h.value.extra.value| < XLEN_RANGE)
    ensures Ends(Cont(q, GzipHeaderTail(h) + tail), |GzipHeaderTail(h)|, Received(r, h, now))
  {
    FlgBits(h);
    hide Flg, Feed, Cont, HasFlag, LengthPrefixed, Ends, FinishRecv;
    var rest := GzipHeaderTail(h);
    ContGo(q, rest + tail);
    var q1 := Turn(q, 0).0;
    if Flg(h) == 0 {
      assert [] + tail == tail;
      DoneParses(q1, tail);
      PlainReceived(r, h, now);
    } else {
      ExtraParses(q1, Flg(h), h.value.extra, Text(h.value.name), Text(h.value.comment), HcrcField(h), tail);
    }
  }

  lemma PlainReceived(r: Option<Recv>, h: Option<GzHead>, now: bv32)
    requires Flg(h) == 0
    ensures Received(r, h, now) ==
            if r.None? then None else Some(FixedRecv(r, h, now).value.(done := true))
  {
    FlgBits(h);
    NothingWritten(FixedRecv(r, h, now));
    assert !HasFlag(0, FTEXT);
    hide Flg, HasFlag;
  }

  lemma DoneParses(p: Parser, tail: seq<byte>)
    requires p.Valid() && p.state == HeadDone
    ensures Ends(Cont(p, tail), 0, if p.recv.None? then None else Some(p.recv.value.(done := true)))
  {
  }

  /** Bytes that deflate wrote for a header, with non-empty extra data if any, are parsed exactly and recovered. */
  lemma GzipHeaderParses(p: Parser, h: Option<GzHead>, now: bv32, tail: seq<byte>)
    requires p.Valid() && p.state == Start && p.idx == 0
    requires h.Some? ==> h.value.Valid() && (h.value.extra.Some? ==> 0 < |h.value.extra.value| < XLEN_RANGE)
    requires Fits(p.recv, h)
    ensures var r := Feed(Gzip, p, GzipHeader(h, now) + tail);
            && r.1 == |GzipHeader(h, now)| && r.2 == HdrOk && r.0.state == HeadDone
            && (r.0.recv.Some? <==> p.recv.Some?)
            && (p.recv.Some? ==> Recovers(r.0.recv.value, p.recv.value, h, now))
  {
    HeaderEnds(p, h, now, tail);
    hide Feed, GzipHeader, Recovers;
    if p.recv.Some? {
      ReceivedRecovers(p.recv, h, now);
    }
  }

  /** Parsing does not depend on how the header reaches the parser. */
  lemma GzipHeaderRoundTrip(p: Parser, h: Option<GzHead>, now: bv32, tail: seq<byte>, chunks: seq<seq<byte>>)
    requires p.Valid() && p.state == Start && p.idx == 0
    requires h.Some? ==> h.value.Valid() && (h.value.extra.Some? ==> 0 < |h.value.extra.value| < XLEN_RANGE)
    requires Fits(p.recv, h)
    requires Flatten(chunks) == GzipHeader(h, now) + tail
    ensures var r := FeedAll(Gzip, p, chunks);
            && r.1 == |GzipHeader(h, now)| && r.2 == HdrOk && r.0.state == HeadDone
            && (r.0.recv.Some? <==> p.recv.Some?)
            && (p.recv.Some? ==> Recovers(r.0.recv.value, p.recv.value, h, now))
  {
    hide Feed, FeedAll, GzipHeader, Recovers, Flatten;
    ChunkIndependent(Gzip, p, chunks);
    GzipHeaderParses(p, h, now, tail);
  }

  // ---- empty extra data ----

  /** Extra bytes the parser still expects: a length of zero stands for 65536. */
  function Expected(xlen: nat): nat {
    if xlen == 0 then XLEN_RANGE else xlen
  }

  /** A byte of the extra data that is not the last one. */
  lemma ExtraWaits(p: Parser, flg: byte, b: byte)
    requires At(p, GetExtra, flg) && p.idx >= 10 && Expected(p.xlen) > 1
    ensures var (q, sig) := Turn(Stored(p, b), b);
            sig == Fault || (sig == Wait && At(q.(idx := p.idx + 1), GetExtra, flg)
                             && Expected(q.xlen) == Expected(p.xlen) - 1)
  {
    hide Turn, Put, Stored;
    StoredKeeps(p, b);
    InExtra(Stored(p, b), b);
  }

  lemma FaultByte(p: Parser, b: byte, tail: seq<byte>)
    requires p.Valid() && p.idx >= 10 && p.state != HeadDone && Turn(Stored(p, b), b).1 == Fault
    ensures Feed(Gzip, p, [b] + tail).2 == HdrError
  {
    hide Turn, Put, Feed;
    FeedFirst(Gzip, p, b, tail);
  }

  lemma {:induction false} ExtraSwallows(p: Parser, flg: byte, s: seq<byte>)
    requires At(p, GetExtra, flg) && p.idx >= 10 && |s| < Expected(p.xlen)
    ensures Feed(Gzip, p, s).2 != HdrOk
    decreases |s|
  {
    hide Turn, Stored, Expected;
    if s != [] {
      ExtraWaits(p, flg, s[0]);
      var (q, sig) := Turn(Stored(p, s[0]), s[0]);
      if sig == Wait {
        assert s == [s[0]] + s[1..];
        WaitByte(p, s[0], s[1..]);
        ExtraSwallows(q.(idx := p.idx + 1), flg, s[1..]);
      } else {
        FaultByte(p, s[0], s[1..]);
      }
    }
  }

  lemma EmptyExtraTail(q: Parser, flg: byte, names: seq<byte>, tail: seq<byte>)
    requires At(q, CheckEmpty, flg) && HasFlag(flg, FEXTRA) && flg != 0 && |names| < XLEN_RANGE
    ensures var r := Cont(q, [LowByte(0), HighByte(0)] + (names + tail)); !(r.1 == 2 + |names| && r.2 == HdrOk)
  {
    hide Feed, Cont, HasFlag, Value, WithHigh, LowByte, HighByte;
    var lo, hi := LowByte(0), HighByte(0);
    LengthBytes(0);
    ContGo(q, [lo, hi] + (names + tail));
    var q1 := LengthParses(Turn(q, 0).0, flg, lo, hi, names + tail);
    ExtraSwallows(q1, flg, names);
    FeedSplit(Gzip, q1, names, tail);
  }

  lemma EmptyExtraImage(h: Option<GzHead>, now: bv32)
    requires h.Some? && h.value.extra == Some([])
    ensures GzipHeader(h, now) ==
            GzipFixed(h, now) + ([LowByte(0), HighByte(0)] + (NameField(h) + (CommentField(h) + HcrcField(h))))
  {
    hide GzipFixed, LowByte, HighByte, NameField, CommentField, HcrcField;
    assert ExtraField(h) == [LowByte(0), HighByte(0)];
    hide ExtraField;
  }

  /** With extra data of length zero the parser does not stop behind what follows, however much of it there is. */
  lemma EmptyExtraRunsOn(p: Parser, h: Option<GzHead>, now: bv32, names: seq<byte>, tail: seq<byte>)
    requires p.Valid() && p.state == Start && p.idx == 0 && |names| < XLEN_RANGE
    requires h.Some? && h.value.Valid() && h.value.extra == Some([])
    ensures var s := GzipFixed(h, now) + ([LowByte(0), HighByte(0)] + names);
            var r := Feed(Gzip, p, s + tail); !(r.1 == |s| && r.2 == HdrOk)
  {
    var lo, hi := LowByte(0), HighByte(0);
    FlgBits(h);
    hide Flg, GzipFixed, Feed, Cont, HasFlag, LowByte, HighByte;
    Regroup(GzipFixed(h, now), [lo, hi] + names, tail);
    Regroup([lo, hi], names, tail);
    var q := FixedParses(p, h, now, [lo, hi] + (names + tail));
    EmptyExtraTail(q, Flg(h), names, tail);
  }

  /** With extra data of length zero the parser never stops where the header ends. */
  lemma EmptyExtraMissesEnd(p: Parser, h: Option<GzHead>, now: bv32, tail: seq<byte>)
    requires p.Valid() && p.state == Start && p.idx == 0
    requires h.Some? && h.value.Valid() && h.value.extra == Some([])
    ensures var s := Header(Gzip, h, None, now); var r := Feed(Gzip, p, s + tail); !(r.1 == |s| && r.2 == HdrOk)
  {
    var names := NameField(h) + (CommentField(h) + HcrcField(h));
    var few := names[..Min(243, |names|)];
    var front := GzipFixed(h, now) + [LowByte(0), HighByte(0)];
    hide Feed, GzipFixed, LowByte, HighByte, NameField, CommentField, HcrcField;
    EmptyExtraImage(h, now);
    hide GzipHeader, ExtraField;
    Regroup(GzipFixed(h, now), [LowByte(0), HighByte(0)], names);
    Regroup(GzipFixed(h, now), [LowByte(0), HighByte(0)], few);
    assert Header(Gzip, h, None, now) == Queued(front + names) == front + few;
    EmptyExtraRunsOn(p, h, now, few, tail);
  }

  /** If the end of a header is lost, the parser takes bytes of what follows for it. */
  lemma LostBytesMissEnd(p: Parser, h: GzHead, now: bv32, tail: seq<byte>)
    requires p.Valid() && p.state == Start && p.idx == 0
    requires h.Valid() && h.extra != Some([]) && |Text(h.extra)| < XLEN_RANGE && Fits(p.recv, Some(h))
    requires Header(Gzip, Some(h), None, now) != GzipHeader(Some(h), now)
    ensures var s := Header(Gzip, Some(h), None, now); var r := Feed(Gzip, p, s + tail); !(r.1 == |s| && r.2 == HdrOk)
  {
    hide Feed, Recovers, GzipHeader;
    var all, s := GzipHeader(Some(h), now), Header(Gzip, Some(h), None, now);
    assert s == Queued(all);
    GzipHeaderParses(p, Some(h), now, []);
    assert all + [] == s + all[|s|..];
    FeedSplit(Gzip, p, s, all[|s|..]);
    FeedSplit(Gzip, p, s, tail);
  }

  /** A header that deflate accepted is parsed up to exactly its end if and only if its extra data is not empty and
      nothing of it was lost. Extra data as long as the 16-bit length field allows are considered; longer ones pass the
      length test only if the lengths wrap. */
  lemma GzipHeaderExactIff(p: Parser, h: Option<GzHead>, now: bv32, tail: seq<byte>)
    requires p.Valid() && p.state == Start && p.idx == 0
    requires h.Some? ==> h.value.Valid() && |Text(h.value.extra)| < XLEN_RANGE
    requires HeadAccepted(h) && Fits(p.recv, h)
    ensures var s := Header(Gzip, h, None, now); var r := Feed(Gzip, p, s + tail);
            r.1 == |s| && r.2 == HdrOk <==>
            !(h.Some? && (h.value.extra == Some([]) || LongestHead(h.value) || TextBytes(h.value) >= 0x1_0000_0000))
  {
    AcceptedHeaderFits(h, now);
    hide Feed, GzipHeader, Recovers, Header;
    if h.Some? && h.value.extra == Some([]) {
      EmptyExtraMissesEnd(p, h, now, tail);
    } else if h.Some? && Header(Gzip, h, None, now) != GzipHeader(h, now) {
      LostBytesMissEnd(p, h.value, now, tail);
    } else {
      GzipHeaderParses(p, h, now, tail);
    }
  }

  // ---- zlib ----

  lemma ZlibFlags()
    ensures ZlibHeadOk(0x78, 0x9c) && !HasFlag(0x9c, FDICT)
    ensures ZlibHeadOk(0x78, 0xbb) && HasFlag(0xbb, FDICT)
  {
  }

  lemma ZlibByteWaits(p: Parser, b: byte, tail: seq<byte>)
    requires p.Valid() && ZlibByte(Stored(p, b)).1 == NeedMore
    ensures var q := ZlibByte(Stored(p, b)).0.(idx := p.idx + 1);
            q.Valid() && Feed(Zlib, p, [b] + tail) == Shift(1, Feed(Zlib, q, tail))
  {
    FeedFirst(Zlib, p, b, tail);
    hide ZlibByte, ZlibHeadOk, FromBe32, HasFlag, Put, Feed;
  }

  lemma ZlibByteEnds(p: Parser, b: byte, tail: seq<byte>)
    requires p.Valid() && ZlibByte(Stored(p, b)).1 != NeedMore
    ensures Feed(Zlib, p, [b] + tail).0 == ZlibByte(Stored(p, b)).0.(idx := p.idx + 1)
    ensures Feed(Zlib, p, [b] + tail).1 == 1
    ensures Feed(Zlib, p, [b] + tail).2 == ZlibByte(Stored(p, b)).1
  {
    FeedFirst(Zlib, p, b, tail);
    ZlibHeaderByte(p, b);
    hide *;
  }

  lemma ZlibHeaderByte(p: Parser, b: byte)
    requires p.Valid()
    ensures HeaderByte(Zlib, p, b).0 == ZlibByte(Stored(p, b)).0.(idx := p.idx + 1)
    ensures HeaderByte(Zlib, p, b).1 == ZlibByte(Stored(p, b)).1
  {
    hide ZlibByte, Put;
  }

  /** The dictionary identifier of a zlib header arrives at the parser, which then asks for that dictionary. */
  lemma ZlibHeaderParses(p: Parser, dict: Option<bv32>, tail: seq<byte>)
    requires p.Valid() && p.state == Start && p.idx == 0
    ensures var r := Feed(Zlib, p, ZlibHeader(dict) + tail);
            && r.1 == |ZlibHeader(dict)| && r.0.state == HeadDone
            && (dict.None? ==> r.2 == HdrOk && r.0.dictAdler == p.dictAdler)
            && (dict.Some? ==>
                 r.2 == NeedDict && r.0.dictAdler == dict.value && r.0.adler == dict.value && !r.0.haveDict)
  {
    ZlibFlags();
    var h := ZlibHeader(dict);
    hide Feed, ZlibHeadOk, HasFlag, FromBe32, Be32;
    assert h + tail == [h[0]] + ([h[1]] + (h[2..] + tail));
    ZlibByteWaits(p, h[0], [h[1]] + (h[2..] + tail));
    var p1 := ZlibByte(Stored(p, h[0])).0.(idx := 1);
    if dict.None? {
      ZlibByteEnds(p1, h[1], h[2..] + tail);
    } else {
      ZlibByteWaits(p1, h[1], h[2..] + tail);
      var p2 := ZlibByte(Stored(p1, h[1])).0.(idx := 2);
      var d := h[2..];
      assert d == Be32(dict.value);
      WordRoundTrip(dict.value);
      DictIdParses(p2, d, tail);
    }
  }

  lemma DictIdParses(p: Parser, d: seq<byte>, tail: seq<byte>)
    requires p.Valid() && p.state == ZlibAdler && p.idx == 2 && |d| == 4
    ensures var r := Feed(Zlib, p, d + tail);
            && r.1 == 4 && r.0.state == HeadDone && r.2 == NeedDict
            && r.0.dictAdler == FromBe32(d) && r.0.adler == FromBe32(d) && !r.0.haveDict
  {
    hide Feed, FromBe32;
    assert d + tail == [d[0]] + ([d[1]] + ([d[2]] + ([d[3]] + tail)));
    ZlibByteWaits(p, d[0], [d[1]] + ([d[2]] + ([d[3]] + tail)));
    var p3 := Stored(p, d[0]).(idx := 3);
    ZlibByteWaits(p3, d[1], [d[2]] + ([d[3]] + tail));
    var p4 := Stored(p3, d[1]).(idx := 4);
    ZlibByteWaits(p4, d[2], [d[3]] + tail);
    var p5 := Stored(p4, d[2]).(idx := 5);
    ZlibByteEnds(p5, d[3], tail);
    assert Stored(p5, d[3]).prefx[2..6] == d;
  }

  lemma ZlibHeaderRoundTrip(p: Parser, dict: Option<bv32>, tail: seq<byte>, chunks: seq<seq<byte>>)
    requires p.Valid() && p.state == Start && p.idx == 0
    requires Flatten(chunks) == ZlibHeader(dict) + tail
    ensures var r := FeedAll(Zlib, p, chunks);
            && r.1 == |ZlibHeader(dict)| && r.0.state == HeadDone
            && (dict.None? ==> r.2 == HdrOk && r.0.dictAdler == p.dictAdler)
            && (dict.Some? ==>
                 r.2 == NeedDict && r.0.dictAdler == dict.value && r.0.adler == dict.value && !r.0.haveDict)
  {
    hide Feed, FeedAll, ZlibHeader, Flatten;
    ChunkIndependent(Zlib, p, chunks);
    ZlibHeaderParses(p, dict, tail);
  }

  /** Deflate names its dictionary in the header; after any delivery of that header, inflate asks for a dictionary and
      takes exactly those with the same checksum, so the one that was used is among them. */
  lemma DictionaryHandshake(p: Parser, used: seq<byte>, offered: seq<byte>, tail: seq<byte>, chunks: seq<seq<byte>>)
    requires p.Valid() && p.state == Start && p.idx == 0
    requires |used| <= 0x8010
    requires Flatten(chunks) == ZlibHeader(Some(Adler.DictId(used))) + tail
    ensures var r := FeedAll(Zlib, p, chunks);
            && r.2 == NeedDict && r.1 == 6
            && Accepts(Zlib, r.0, used)
            && (Accepts(Zlib, r.0, offered) <==> |offered| <= 0x8010 && Adler.DictId(offered) == Adler.DictId(used))
  {
    ZlibHeaderRoundTrip(p, Some(Adler.DictId(used)), tail, chunks);
    hide FeedAll, Flatten, Adler.DictId;
  }

  // ---- what is refused ----

  /** The first ten bytes of a gzip header are refused, all at once, exactly if magic bytes or method are wrong. */
  lemma MagicDecides(p: Parser, f: seq<byte>, tail: seq<byte>)
    requires p.Valid() && p.state == Start && p.idx == 0 && |f| == 10
    ensures if f[0] == 0x1f && f[1] == 0x8b && f[2] == 0x08 then Feed(Gzip, p, f).2 != HdrError
            else var r := Feed(Gzip, p, f + tail); r.1 == 10 && r.2 == HdrError && r.0.state == Start
  {
    assert f == f[..9] + [f[9]];
    Regroup(f[..9], [f[9]], tail);
    FixedBytes(p, f[..9], [f[9]] + tail);
    FixedBytes(p, f[..9], [f[9]]);
    var p1 := p.(idx := 9, prefx := p.prefx[..0] + f[..9] + p.prefx[9..]);
    var s := Stored(p1, f[9]);
    assert s.prefx[..10] == f && s.prefx[..3] == [f[0], f[1], f[2]];
    FirstTurn(s, f[9]);
    hide Feed, Turn, Stored;
    if f[0] != 0x1f || f[1] != 0x8b || f[2] != 0x08 {
      FaultAtStart(p1, f[9], tail);
    } else {
      GoByte(p1, f[9], []);
      assert [f[9]] + [] == [f[9]];
      ContNothing(Turn(s, f[9]).0);
    }
  }

  lemma FirstTurn(p: Parser, b: byte)
    requires p.Valid() && p.state == Start
    ensures if p.prefx[..3] == [0x1f, 0x8b, 0x08] then Turn(p, b).1 == Go && Turn(p, b).0.state == CheckEmpty
            else Turn(p, b) == (p, Fault)
  {
    hide FromLe32;
  }

  lemma FaultAtStart(p: Parser, b: byte, tail: seq<byte>)
    requires p.Valid() && p.idx == 9 && p.state == Start && Turn(Stored(p, b), b) == (Stored(p, b), Fault)
    ensures var r := Feed(Gzip, p, [b] + tail); r.1 == 1 && r.2 == HdrError && r.0.state == Start
  {
    hide Turn, Put, Feed;
    FeedFirst(Gzip, p, b, tail);
  }

  /** Without more bytes the checks of the flags refuse nothing. */
  lemma {:induction false} ChecksRefuseNothing(e: HeadState, p: Parser)
    requires p.Valid() && IsCheck(p.state)
    ensures Walk(e, p, 0).1 != HdrError
    decreases 15 - Rank(p.state)
  {
    hide Turn;
    if p.state != HeadDone {
      CheckTurn(p, 0);
      TurnAdvances(p, 0);
      if Turn(p, 0).1 == Go {
        ChecksRefuseNothing(e, Turn(p, 0).0);
      }
    }
  }

  lemma ContNothing(p: Parser)
    requires p.Valid() && IsCheck(p.state)
    ensures Cont(p, []).2 != HdrError
  {
    ChecksRefuseNothing(p.state, p);
    hide Walk;
  }

  /** A zlib header is refused exactly if its check fails; it asks for a dictionary exactly if bit 0x20 is set. */
  lemma ZlibVerdict(p: Parser, cmf: byte, flg: byte, tail: seq<byte>)
    requires p.Valid() && p.state == Start && p.idx == 0
    ensures var ok := (256 * Value(cmf) + Value(flg)) % 31 == 0 && cmf & 0x0f == 0x08 && cmf & 0xf0 <= 0x70;
            var r := Feed(Zlib, p, [cmf] + ([flg] + tail));
            && (r.2 == HdrError <==> !ok)
            && (r.2 == HdrOk <==> ok && flg & 0x20 == 0)
            && (r.2 == NeedDict ==> r.1 == 6)
            && (r.2 == HdrError || r.2 == HdrOk ==> r.1 == 2)
            && (ok && flg & 0x20 != 0 ==> (r.2 == NeedDict <==> |tail| >= 4))
  {
    hide Feed, ZlibHeadOk, HasFlag, Value;
    ZlibChecks(cmf, flg);
    ZlibRun(p, cmf, flg, tail);
  }

  lemma ZlibRun(p: Parser, cmf: byte, flg: byte, tail: seq<byte>)
    requires p.Valid() && p.state == Start && p.idx == 0
    ensures var ok, dict := ZlibHeadOk(cmf, flg), HasFlag(flg, FDICT);
            var r := Feed(Zlib, p, [cmf] + ([flg] + tail));
            && (r.2 == HdrError <==> !ok)
            && (r.2 == HdrOk <==> ok && !dict)
            && (r.2 == NeedDict ==> r.1 == 6)
            && (r.2 == HdrError || r.2 == HdrOk ==> r.1 == 2)
            && (ok && dict ==> (r.2 == NeedDict <==> |tail| >= 4))
  {
    hide Feed, ZlibByte, Stored, ZlibHeadOk, HasFlag;
    TwoBytes(p, cmf, flg);
    ZlibByteWaits(p, cmf, [flg] + tail);
    var p1 := ZlibByte(Stored(p, cmf)).0.(idx := 1);
    if ZlibHeadOk(cmf, flg) && HasFlag(flg, FDICT) {
      ZlibByteWaits(p1, flg, tail);
      IdentifierTaken(ZlibByte(Stored(p1, flg)).0.(idx := 2), tail);
    } else {
      ZlibByteEnds(p1, flg, tail);
    }
  }

  lemma TwoBytes(p: Parser, cmf: byte, flg: byte)
    requires p.Valid() && p.state == Start && p.idx == 0
    ensures var p1 := ZlibByte(Stored(p, cmf)).0.(idx := 1); var r := ZlibByte(Stored(p1, flg));
            && ZlibByte(Stored(p, cmf)).1 == NeedMore && r.0.Valid() && r.0.idx == 1 && p1.Valid()
            && if !ZlibHeadOk(cmf, flg) then r.1 == HdrError
               else if HasFlag(flg, FDICT) then r.1 == NeedMore && r.0.state == ZlibAdler else r.1 == HdrOk
  {
    hide ZlibHeadOk, HasFlag;
  }

  lemma ZlibChecks(cmf: byte, flg: byte)
    ensures ZlibHeadOk(cmf, flg) <==>
            (256 * Value(cmf) + Value(flg)) % 31 == 0 && cmf & 0x0f == 0x08 && cmf & 0xf0 <= 0x70
    ensures HasFlag(flg, FDICT) <==> flg & 0x20 != 0
  {
    hide Value;
  }

  lemma IdentifierTaken(p: Parser, tail: seq<byte>)
    requires p.Valid() && p.state == ZlibAdler && p.idx == 2
    ensures var r := Feed(Zlib, p, tail);
            if |tail| >= 4 then r.1 == 4 && r.2 == NeedDict else r.2 == NeedMore
  {
    hide Feed, FromBe32;
    if |tail| >= 4 {
      assert tail == tail[..4] + tail[4..];
      DictIdParses(p, tail[..4], tail[4..]);
    } else {
      IdentifierWaits(p, tail);
    }
  }

  lemma {:induction false} IdentifierWaits(p: Parser, tail: seq<byte>)
    requires p.Valid() && p.state == ZlibAdler && 2 <= p.idx && p.idx + |tail| < 6
    ensures Feed(Zlib, p, tail).2 == NeedMore
    decreases |tail|
  {
    hide FromBe32;
    if tail != [] {
      assert tail == [tail[0]] + tail[1..];
      ZlibByteWaits(p, tail[0], tail[1..]);
      var q := ZlibByte(Stored(p, tail[0])).0.(idx := p.idx + 1);
      hide Feed;
      IdentifierWaits(q, tail[1..]);
    }
  }

  // ---- trailers ----

  predicate Matches(format: Format, crc: bv32, adler: bv32, fileCrc: bv32, fileAdler: bv32) {
    match format
    case Defl => true
    case Zlib => fileAdler == adler
    case Gzip => fileCrc == crc
  }

  lemma TakeFirst(format: Format, got: seq<byte>, crc: bv32, adler: bv32, b: byte, s: seq<byte>)
    requires |got| < TrailLen(format)
    ensures Take(format, got, crc, adler, [b] + s) ==
            if Refused(format, got + [b], crc, adler) then (got + [b], 1, TrailError)
            else Later(1, Take(format, got + [b], crc, adler, s))
  {
    hide Refused;
    assert ([b] + s)[1..] == s;
  }

  lemma {:induction false} TakeSplit(format: Format, got: seq<byte>, crc: bv32, adler: bv32, a: seq<byte>, b: seq<byte>)
    requires |got| <= TrailLen(format)
    ensures var r := Take(format, got, crc, adler, a);
            Take(format, got, crc, adler, a + b) ==
            if r.2 != TrailMore then r else Later(|a|, Take(format, r.0, crc, adler, b))
    decreases |a|
  {
    hide Take, Refused;
    if |got| == TrailLen(format) {
      TrailerReentry(format, got, crc, adler, a);
      TrailerReentry(format, got, crc, adler, a + b);
    } else if a == [] {
      assert a + b == b;
      TakeNothing(format, got, crc, adler);
    } else {
      Cons(a, b);
      TakeFirst(format, got, crc, adler, a[0], a[1..] + b);
      TakeFirst(format, got, crc, adler, a[0], a[1..]);
      TakeSplit(format, got + [a[0]], crc, adler, a[1..], b);
    }
  }

  lemma TakeNothing(format: Format, got: seq<byte>, crc: bv32, adler: bv32)
    requires |got| < TrailLen(format)
    ensures Take(format, got, crc, adler, []) == (got, 0, TrailMore)
  {
  }

  function TakeAll(format: Format, got: seq<byte>, crc: bv32, adler: bv32, chunks: seq<seq<byte>>)
    : (r: (seq<byte>, nat, TrailRc))
    requires |got| <= TrailLen(format)
    ensures |r.0| <= TrailLen(format)
    decreases |chunks|
  {
    if chunks == [] then (got, 0, if |got| == TrailLen(format) then TrailOk else TrailMore)
    else
      var r := Take(format, got, crc, adler, chunks[0]);
      if r.2 != TrailMore then r
      else
        var t := TakeAll(format, r.0, crc, adler, chunks[1..]);
        (t.0, r.1 + t.1, t.2)
  }

  lemma {:induction false} TrailerChunkIndependent(format: Format, got: seq<byte>, crc: bv32, adler: bv32,
                                                   chunks: seq<seq<byte>>)
    requires |got| <= TrailLen(format)
    ensures TakeAll(format, got, crc, adler, chunks) == Take(format, got, crc, adler, Flatten(chunks))
    decreases |chunks|
  {
    hide Refused;
    if chunks != [] {
      TakeSplit(format, got, crc, adler, chunks[0], Flatten(chunks[1..]));
      TrailerChunkIndependent(format, Take(format, got, crc, adler, chunks[0]).0, crc, adler, chunks[1..]);
    }
  }

  /** Bytes after which no comparison fails are simply collected. */
  lemma {:induction false} TakePasses(format: Format, got: seq<byte>, crc: bv32, adler: bv32, s: seq<byte>,
                                      tail: seq<byte>)
    requires |got + s| <= TrailLen(format)
    requires forall k | |got| < k <= |got + s| :: !Refused(format, (got + s)[..k], crc, adler)
    ensures Take(format, got, crc, adler, s + tail) == Later(|s|, Take(format, got + s, crc, adler, tail))
    decreases |s|
  {
    hide Refused, Take;
    if s == [] {
      assert got + s == got && s + tail == tail;
    } else {
      Cons(s, tail);
      TakeFirst(format, got, crc, adler, s[0], s[1..] + tail);
      var g := got + [s[0]];
      assert (got + s)[..|got| + 1] == g && g + s[1..] == got + s;
      TakePasses(format, g, crc, adler, s[1..], tail);
    }
  }

  lemma EarlyPasses(format: Format, crc: bv32, adler: bv32, w: seq<byte>)
    requires |w| == 3
    ensures forall k | 0 < k <= 3 :: !Refused(format, w[..k], crc, adler)
  {
  }

  /** Four bytes in, a checksum that differs stops the trailer. */
  lemma TakeRefuses(format: Format, crc: bv32, adler: bv32, w: seq<byte>, tail: seq<byte>)
    requires format != Defl && |w| == 4 && Refused(format, w, crc, adler)
    ensures Take(format, [], crc, adler, w + tail) == (w, 4, TrailError)
  {
    EarlyPasses(format, crc, adler, w[..3]);
    hide Refused;
    var last := w[3..] + tail;
    assert [] + w[..3] == w[..3] && w[..3] + [last[0]] == w;
    TakePasses(format, [], crc, adler, w[..3], last);
    assert w + tail == w[..3] + last;
  }

  lemma TrailerRefused(format: Format, crc: bv32, adler: bv32, fileCrc: bv32, fileAdler: bv32, total: nat,
                       tail: seq<byte>)
    requires !Matches(format, crc, adler, fileCrc, fileAdler)
    ensures var t := Trailer(format, fileCrc, fileAdler, total);
            Take(format, [], crc, adler, t + tail) == (t[..4], 4, TrailError)
  {
    var t := Trailer(format, fileCrc, fileAdler, total);
    WordRoundTrip(fileCrc);
    WordRoundTrip(fileAdler);
    hide Take, FromLe32, FromBe32, Le32, Be32, Low32;
    assert t[..4] == if format == Gzip then Le32(fileCrc) else Be32(fileAdler);
    assert t[..4][..4] == t[..4];
    Regroup(t[..4], t[4..], tail);
    assert t == t[..4] + t[4..];
    TakeRefuses(format, crc, adler, t[..4], t[4..] + tail);
  }

  lemma TrailerAccepted(format: Format, crc: bv32, adler: bv32, fileCrc: bv32, fileAdler: bv32, total: nat,
                        tail: seq<byte>)
    requires Matches(format, crc, adler, fileCrc, fileAdler)
    ensures var t := Trailer(format, fileCrc, fileAdler, total);
            Take(format, [], crc, adler, t + tail) == (t, |t|, TrailOk)
  {
    var t := Trailer(format, fileCrc, fileAdler, total);
    WordRoundTrip(fileCrc);
    WordRoundTrip(fileAdler);
    hide Take, FromLe32, FromBe32, Le32, Be32, Low32;
    assert [] + t == t;
    forall k | 0 < k <= |t|
      ensures !Refused(format, t[..k], crc, adler)
    {
      if k >= 4 {
        assert t[..k][..4] == (if format == Gzip then Le32(fileCrc) else Be32(fileAdler));
        assert format == Zlib ==> t[..k] == Be32(fileAdler);
      }
    }
    TakePasses(format, [], crc, adler, t, tail);
    TrailerReentry(format, t, crc, adler, tail);
  }

  /** A trailer that deflate wrote is taken exactly, and accepted if and only if the checksum matches; otherwise the
      call stops behind the checksum. The length in a gzip trailer is not compared. */
  lemma TrailerRoundTrip(format: Format, crc: bv32, adler: bv32, fileCrc: bv32, fileAdler: bv32, total: nat,
                         tail: seq<byte>, chunks: seq<seq<byte>>)
    requires Flatten(chunks) == Trailer(format, fileCrc, fileAdler, total) + tail
    ensures var t, r := Trailer(format, fileCrc, fileAdler, total), TakeAll(format, [], crc, adler, chunks);
            if Matches(format, crc, adler, fileCrc, fileAdler) then r == (t, |t|, TrailOk)
            else |t| >= 4 && r == (t[..4], 4, TrailError)
  {
    TrailerChunkIndependent(format, [], crc, adler, chunks);
    hide Take, TakeAll, Flatten, Trailer;
    if Matches(format, crc, adler, fileCrc, fileAdler) {
      TrailerAccepted(format, crc, adler, fileCrc, fileAdler, total, tail);
    } else {
      TrailerRefused(format, crc, adler, fileCrc, fileAdler, total, tail);
    }
  }

  /** Once the trailer is complete, further calls take no input. */
  lemma TrailerReentry(format: Format, got: seq<byte>, crc: bv32, adler: bv32, s: seq<byte>)
    requires |got| == TrailLen(format)
    ensures Take(format, got, crc, adler, s) == (got, 0, TrailOk)
  {
  }

  /** A call fails exactly if one more comparison fails. */
  lemma {:induction false} TakeCounts(format: Format, got: seq<byte>, crc: bv32, adler: bv32, s: seq<byte>)
    requires |got| <= TrailLen(format)
    ensures var r := Take(format, got, crc, adler, s);
            Refusals(format, r.0, crc, adler) == Refusals(format, got, crc, adler) + if r.2 == TrailError then 1 else 0
    decreases |s|
  {
    hide Refused;
    if |got| < TrailLen(format) && s != [] {
      var g := got + [s[0]];
      assert g[..|g| - 1] == got;
      if !Refused(format, g, crc, adler) {
        TakeCounts(format, g, crc, adler, s[1..]);
      }
    }
  }

  /** No comparison is made before the fourth byte. */
  lemma {:induction false} NoEarlyRefusal(format: Format, got: seq<byte>, crc: bv32, adler: bv32)
    requires |got| < 4
    ensures Refusals(format, got, crc, adler) == 0
  {
    hide FromLe32, FromBe32;
    if got != [] {
      NoEarlyRefusal(format, got[..|got| - 1], crc, adler);
    }
  }

  /** Between the fourth and the last byte of a gzip trailer no comparison is made either. */
  lemma {:induction false} RefusedOnce(got: seq<byte>, crc: bv32, adler: bv32)
    requires 4 <= |got| < 8
    ensures Refusals(Gzip, got, crc, adler) == if FromLe32(got[..4]) == crc then 0 else 1
  {
    hide FromLe32, FromBe32;
    var before := got[..|got| - 1];
    if |got| == 4 {
      NoEarlyRefusal(Gzip, before, crc, adler);
      assert got[..4] == got;
    } else {
      RefusedOnce(before, crc, adler);
      assert before[..4] == got[..4];
    }
  }

  /** A wrong checksum is refused once in a zlib trailer and twice in a gzip trailer, a right one never. */
  lemma CompleteRefusals(format: Format, got: seq<byte>, crc: bv32, adler: bv32)
    requires |got| == TrailLen(format)
    ensures Refusals(format, got, crc, adler) ==
            if Carries(format, got, crc, adler) then 0 else if format == Gzip then 2 else 1
  {
    hide FromLe32, FromBe32;
    if format == Gzip {
      RefusedOnce(got[..7], crc, adler);
      assert got[..7][..4] == got[..4];
    } else if format == Zlib {
      NoEarlyRefusal(Zlib, got[..3], crc, adler);
    }
  }

  /** Calls that go on also after a refusal, as long as more input is offered: the bytes collected, the number of
      refused calls and the last verdict. */
  function TakeOn(format: Format, got: seq<byte>, crc: bv32, adler: bv32,
                  offers: seq<seq<byte>>): (r: (seq<byte>, nat, TrailRc))
    requires |got| <= TrailLen(format) && offers != []
    ensures |r.0| <= TrailLen(format) && (r.2 == TrailOk ==> |r.0| == TrailLen(format))
    decreases |offers|
  {
    var t := Take(format, got, crc, adler, offers[0]);
    var refused := if t.2 == TrailError then 1 else 0;
    if |offers| == 1 then (t.0, refused, t.2)
    else
      var u := TakeOn(format, t.0, crc, adler, offers[1..]);
      (u.0, refused + u.1, u.2)
  }

  lemma {:induction false} TakeOnCounts(format: Format, got: seq<byte>, crc: bv32, adler: bv32, offers: seq<seq<byte>>)
    requires |got| <= TrailLen(format) && offers != []
    ensures var r := TakeOn(format, got, crc, adler, offers);
            Refusals(format, r.0, crc, adler) == Refusals(format, got, crc, adler) + r.1
    decreases |offers|
  {
    hide Take, Refusals;
    TakeCounts(format, got, crc, adler, offers[0]);
    if |offers| > 1 {
      TakeOnCounts(format, Take(format, got, crc, adler, offers[0]).0, crc, adler, offers[1..]);
    }
  }

  /** A refusal is not remembered: whoever goes on calling sees success for any complete trailer. It was right if and
      only if no call was refused; a wrong one was refused once in zlib and twice in gzip. */
  lemma RefusalForgotten(format: Format, crc: bv32, adler: bv32, offers: seq<seq<byte>>)
    requires offers != []
    ensures var r := TakeOn(format, [], crc, adler, offers);
            r.2 == TrailOk ==> r.1 == if Carries(format, r.0, crc, adler) then 0 else if format == Gzip then 2 else 1
  {
    hide TakeOn, Refusals, Carries;
    var r := TakeOn(format, [], crc, adler, offers);
    TakeOnCounts(format, [], crc, adler, offers);
    NoEarlyRefusal(format, [], crc, adler);
    if r.2 == TrailOk {
      CompleteRefusals(format, r.0, crc, adler);
    }
  }

  /** The rest of a gzip trailer whose checksum was refused is refused again with its last byte. */
  lemma RefusedAgain(got: seq<byte>, crc: bv32, adler: bv32)
    requires |got| == 8 && !Carries(Gzip, got, crc, adler)
    ensures Take(Gzip, got[..4], crc, adler, got[4..]) == (got, 4, TrailError)
  {
    hide FromLe32, Take;
    var w, s := got[..4], got[4..7];
    assert got[4..] == s + [got[7]] && w + s == got[..7] && got[..7] + [got[7]] == got;
    TakePasses(Gzip, w, crc, adler, s, [got[7]]);
    TakeFirst(Gzip, got[..7], crc, adler, got[7], []);
    assert [got[7]] + [] == [got[7]] && got[..4] == w;
    assert Refused(Gzip, got, crc, adler);
  }

  /** Offered again and again, a wrong trailer is accepted after its refusals. */
  lemma WrongTrailerSucceeds(format: Format, got: seq<byte>, crc: bv32, adler: bv32)
    requires |got| == TrailLen(format) && !Carries(format, got, crc, adler)
    ensures TakeOn(format, [], crc, adler, [got, got[4..], []]) == (got, if format == Gzip then 2 else 1, TrailOk)
  {
    var w, offers := got[..4], [got, got[4..], []];
    assert got == w + got[4..] && w[..4] == w;
    assert Refused(format, w, crc, adler);
    TakeRefuses(format, crc, adler, w, got[4..]);
    if format == Gzip {
      RefusedAgain(got, crc, adler);
    } else {
      assert w == got;
      TrailerReentry(Zlib, got, crc, adler, got[4..]);
    }
    TrailerReentry(format, got, crc, adler, []);
    hide Take, Refused, Carries;
    var rest: seq<seq<byte>> := [[]];
    assert offers[1..] == [got[4..], []] && offers[1..][1..] == rest;
    assert TakeOn(format, got, crc, adler, rest) == (got, 0, TrailOk);
    assert TakeOn(format, w, crc, adler, offers[1..]) == (got, if format == Gzip then 1 else 0, TrailOk);
  }
}
