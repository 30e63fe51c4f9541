/** The converters between the binary and the CSV form of the vital product data (tools/genwqe_vpd_common.c). */
module Vpd {
  import opened Bits
  import opened Words
  import Crc

  const NUL: byte := 0x00
  const NEWLINE: byte := 0x0a
  const QUOTE: byte := 0x22
  const COMMA: byte := 0x2c
  const ASCII: byte := 0x41 // mode A
  const HEX: byte := 0x58   // mode X
  const MAX_LINE := 512
  const BUFFER_SIZE := 64 * 1024
  const SEED: bv32 := 0xffff_ffff

  /** A line of the layout table. */
  datatype Entry = Entry(key: seq<byte>, length: nat, mode: byte)

  predicate Plain(c: byte) {
    c != NUL && c != NEWLINE && c != QUOTE && c != COMMA
  }

  predicate AllPlain(s: seq<byte>) {
    forall i | 0 <= i < |s| :: Plain(s[i])
  }

  /** isprint in the C locale. */
  predicate IsPrint(c: byte) {
    0x20 <= c <= 0x7e
  }

  // ---- numbers as text ----

  function Digit(n: nat): byte
    requires n < 10
  {
    (48 + n) as byte
  }

  predicate IsDigit(c: byte) {
    0x30 <= c <= 0x39
  }

  function DigitValue(c: byte): nat
    requires IsDigit(c)
  {
    (c - 0x30) as nat
  }

  /** %d of a number that is not negative. */
  function Dec(n: nat): seq<byte> {
    if n < 10 then [Digit(n)] else Dec(n / 10) + [Digit(n % 10)]
  }

  /** The number that begins with acc and goes on with the leading digits of s. */
  function ScanDigits(s: seq<byte>, acc: nat): nat
    decreases |s|
  {
    if s == [] || !IsDigit(s[0]) then acc else ScanDigits(s[1..], 10 * acc + DigitValue(s[0]))
  }

  predicate IsBlank(c: byte) {
    c == 0x20 || 0x09 <= c <= 0x0d
  }

  function Unsigned(s: seq<byte>): Option<int> {
    if s == [] || !IsDigit(s[0]) then None else Some(ScanDigits(s, 0))
  }

  /** sscanf with %d: blanks, a sign, digits; None without a digit. */
  function ScanDec(s: seq<byte>): Option<int> {
    if s == [] then None
    else if IsBlank(s[0]) then ScanDec(s[1..])
    else if s[0] == 0x2b then Unsigned(s[1..])
    else if s[0] == 0x2d then
      match Unsigned(s[1..])
      case None => None
      case Some(n) => Some(-n)
    else Unsigned(s)
  }

  function HexDigit(n: byte): byte {
    if n < 10 then 0x30 + n else 0x57 + n
  }

  /** %2.2x */
  function Pair(b: byte): (t: seq<byte>)
    ensures |t| == 2
  {
    [HexDigit(b >> 4), HexDigit(b & 0x0f)]
  }

  function Hex(s: seq<byte>): seq<byte> {
    if s == [] then [] else Hex(s[..|s| - 1]) + Pair(s[|s| - 1])
  }

  /** a2h, with signed characters as on the platforms in question. */
  function A2h(c: byte): byte {
    (if 0x41 <= c < 0x80 then c - 7 else c) & 0x0f
  }

  function Join2(hn: byte, ln: byte): byte {
    ln | (hn << 4)
  }

  /** The bytes of a hexadecimal text; digits pair up from the end. */
  function FromHex(t: seq<byte>): (s: seq<byte>)
    ensures 2 * |s| == |t| || 2 * |s| == |t| + 1
  {
    if t == [] then []
    else if |t| == 1 then [A2h(t[0])]
    else FromHex(t[..|t| - 2]) + [Join2(A2h(t[|t| - 2]), A2h(t[|t| - 1]))]
  }

  lemma {:induction false} HexRoundTrip(s: seq<byte>)
    ensures |Hex(s)| == 2 * |s| && FromHex(Hex(s)) == s && AllPlain(Hex(s))
    decreases |s|
  {
    hide Pair, A2h, Join2, FromHex, Plain;
    if s == [] {
      EmptyHex();
    } else {
      var b, front := s[|s| - 1], s[..|s| - 1];
      HexRoundTrip(front);
      HexPair(b);
      OneMore(Hex(front), Pair(b));
      assert s == front + [b];
    }
  }

  lemma OneMore(t: seq<byte>, digits: seq<byte>)
    requires |digits| == 2
    ensures FromHex(t + digits) == FromHex(t) + [Join2(A2h(digits[0]), A2h(digits[1]))]
  {
    hide A2h, Join2;
    var u := t + digits;
    assert u[..|u| - 2] == t;
  }

  lemma HexPair(b: byte)
    ensures Join2(A2h(Pair(b)[0]), A2h(Pair(b)[1])) == b
    ensures Plain(Pair(b)[0]) && Plain(Pair(b)[1])
  {
  }

  lemma DigitRoundTrip(n: nat)
    requires n < 10
    ensures IsDigit(Digit(n)) && DigitValue(Digit(n)) == n
  {
  }

  lemma DigitsArePlain(c: byte)
    requires IsDigit(c)
    ensures Plain(c) && !IsBlank(c) && c != 0x2b && c != 0x2d
  {
  }

  predicate Digits(s: seq<byte>) {
    forall i | 0 <= i < |s| :: IsDigit(s[i])
  }

  lemma {:induction false} ScanAppend(s: seq<byte>, d: byte, acc: nat)
    requires Digits(s) && IsDigit(d)
    ensures ScanDigits(s + [d], acc) == 10 * ScanDigits(s, acc) + DigitValue(d)
    decreases |s|
  {
    hide DigitValue, IsDigit;
    if s == [] {
      assert s + [d] == [d];
      assert ScanDigits([d][1..], 10 * acc + DigitValue(d)) == 10 * acc + DigitValue(d);
    } else {
      assert (s + [d])[0] == s[0] && (s + [d])[1..] == s[1..] + [d];
      ScanAppend(s[1..], d, 10 * acc + DigitValue(s[0]));
    }
  }

  lemma {:induction false} DecDigits(n: nat)
    ensures Dec(n) != [] && Digits(Dec(n)) && ScanDigits(Dec(n), 0) == n
    decreases n
  {
    hide Digit, IsDigit, DigitValue, Plain;
    DigitRoundTrip(n % 10);
    if n < 10 {
      assert ScanDigits([], n) == n;
      assert [Digit(n)][1..] == [];
    } else {
      DecDigits(n / 10);
      ScanAppend(Dec(n / 10), Digit(n % 10), 0);
    }
  }

  lemma DecRoundTrip(n: nat)
    ensures ScanDec(Dec(n)) == Some(n) && AllPlain(Dec(n))
  {
    DecDigits(n);
    var t := Dec(n);
    hide IsDigit, Plain, Dec, ScanDigits, IsBlank;
    forall i | 0 <= i < |t|
      ensures Plain(t[i])
    {
      DigitsArePlain(t[i]);
    }
    DigitsArePlain(t[0]);
  }

  // ---- the characters, one by one ----

  /** The last digit stands for the rest of the division by ten, the others for the quotient. */
  lemma DecText(n: nat)
    ensures var t := Dec(n); t != [] && t[|t| - 1] as int == 0x30 + n % 10
                             && (if n < 10 then |t| == 1 else t[..|t| - 1] == Dec(n / 10))
  {
    hide Digit;
    DigitText(n % 10);
  }

  lemma DigitText(n: nat)
    requires n < 10
    ensures Digit(n) as int == 0x30 + n
  {
    assert n in {0, 1, 2, 3, 4, 5, 6, 7, 8, 9};
  }

  /** Blanks in front of a number are passed over, a sign is taken. */
  lemma ScanText(n: nat, c: byte, s: seq<byte>)
    ensures ScanDec([0x2b] + Dec(n)) == Some(n)
    ensures ScanDec([0x2d] + Dec(n)).Some? && ScanDec([0x2d] + Dec(n)).value + n == 0
    ensures c == 0x20 || 0x09 <= c <= 0x0d ==> ScanDec([c] + s) == ScanDec(s)
    ensures 0x30 <= c <= 0x39 <==> ScanDec([c]).Some?
    ensures 0x30 <= c <= 0x39 ==> ScanDec([c]) == Some((c - 0x30) as int)
  {
    DecDigits(n);
    hide Dec, Plain;
    assert ([0x2b] + Dec(n))[1..] == Dec(n) && ([0x2d] + Dec(n))[1..] == Dec(n);
    assert ([c] + s)[1..] == s && [c][1..] == [];
    assert ScanDec([]) == None && Unsigned([]) == None;
    if 0x30 <= c <= 0x39 {
      assert ScanDigits([], DigitValue(c)) == DigitValue(c);
    }
  }

  /** Digits and letters, small or capital. */
  lemma HexValues(c: byte)
    ensures 0x30 <= c <= 0x39 ==> A2h(c) == c - 0x30
    ensures 0x41 <= c <= 0x46 ==> A2h(c) == c - 0x37
    ensures 0x61 <= c <= 0x66 ==> A2h(c) == c - 0x57
  {
  }

  /** A byte is printed as its upper and its lower half, with small letters. */
  lemma PairText(b: byte)
    ensures Pair(b)[0] == (if b >> 4 < 10 then 0x30 + (b >> 4) else 0x61 + (b >> 4) - 10)
    ensures Pair(b)[1] == (if b & 0x0f < 10 then 0x30 + (b & 0x0f) else 0x61 + (b & 0x0f) - 10)
  {
  }

  lemma Halves(hn: byte, ln: byte)
    ensures Join2(A2h(hn), A2h(ln)) & 0x0f == A2h(ln) && Join2(A2h(hn), A2h(ln)) >> 4 == A2h(hn)
    ensures A2h(ln) & 0x0f == A2h(ln)
  {
  }

  /** Counted from the end, digit 2k is the lower and digit 2k + 1 the upper half of byte k. */
  lemma {:induction false} HexDigits(t: seq<byte>, k: nat)
    requires k < |t|
    ensures k / 2 < |FromHex(t)|
    ensures var b := FromHex(t)[|FromHex(t)| - 1 - k / 2];
            A2h(t[|t| - 1 - k]) == if k % 2 == 0 then b & 0x0f else b >> 4
    decreases |t|
  {
    hide A2h, Join2;
    if |t| == 1 {
      Halves(0, t[0]);
    } else {
      Halves(t[|t| - 2], t[|t| - 1]);
      if k >= 2 {
        HexDigits(t[..|t| - 2], k - 2);
      }
    }
  }

  // ---- the CSV form ----

  /** The printable characters of a field; padding is not shown. */
  function Shown(s: seq<byte>): seq<byte> {
    if s == [] then [] else Shown(s[..|s| - 1]) + (if IsPrint(s[|s| - 1]) then [s[|s| - 1]] else [])
  }

  function Field(e: Entry, data: seq<byte>): seq<byte> {
    if e.mode == ASCII then [QUOTE] + Shown(data) + [QUOTE]
    else if e.mode == HEX then Hex(data)
    else []
  }

  /** A line up to the comma and newline that end it. */
  function Line(e: Entry, data: seq<byte>): seq<byte> {
    [QUOTE] + (e.key + ([QUOTE, COMMA] + (Dec(e.length) + ([COMMA, QUOTE, e.mode, QUOTE, COMMA] + Field(e, data)))))
  }

  function Csv(table: seq<Entry>, datas: seq<seq<byte>>): seq<byte>
    requires |table| == |datas|
  {
    if table == [] then [] else Line(table[0], datas[0]) + [COMMA, NEWLINE] + Csv(table[1..], datas[1..])
  }

  function Record(e: Entry, data: seq<byte>): seq<byte> {
    e.key + [LowLen(e.length), e.mode] + data
  }

  function LowLen(n: nat): byte {
    (n % 256) as byte
  }

  /** A record: two bytes of key, one of length, one of mode, and the content. */
  lemma RecordText(e: Entry, data: seq<byte>)
    requires |e.key| == 2 && e.length < 256
    ensures var r := Record(e, data);
            |r| == 4 + |data| && r[..2] == e.key && r[2] as int == e.length && r[3] == e.mode && r[4..] == data
  {
  }

  /** Key and mode are printed in quotes, and so is text; commas are between the columns, and a comma is last. */
  lemma LineText(e: Entry, data: seq<byte>, rest: seq<Entry>, datas: seq<seq<byte>>)
    requires |datas| == |rest|
    ensures var field := if e.mode == 0x41 then [0x22] + Shown(data) + [0x22]
                         else if e.mode == 0x58 then Hex(data) else [];
            Csv([e] + rest, [data] + datas) ==
            [0x22] + (e.key + ([0x22, 0x2c] + (Dec(e.length) + ([0x2c, 0x22, e.mode, 0x22, 0x2c] + field))))
            + [0x2c, 0x0a] + Csv(rest, datas)
  {
    hide Dec, Hex, Shown;
    assert ([e] + rest)[1..] == rest && ([data] + datas)[1..] == datas;
  }

  /** The binary form. */
  function Image(table: seq<Entry>, datas: seq<seq<byte>>): seq<byte>
    requires |table| == |datas|
  {
    if table == [] then [] else Record(table[0], datas[0]) + Image(table[1..], datas[1..])
  }

  /** Text of an ASCII field: printable characters without quote and comma, then zeros. */
  ghost predicate PaddedText(s: seq<byte>) {
    exists n: nat :: TextThenZeros(s, n)
  }

  ghost predicate TextThenZeros(s: seq<byte>, n: nat) {
    && n <= |s|
    && (forall i | 0 <= i < n :: IsPrint(s[i]) && Plain(s[i]))
    && (forall i | n <= i < |s| :: s[i] == NUL)
  }

  /** A table whose lines the reader can hold. */
  ghost predicate TableOk(table: seq<Entry>) {
    forall i | 0 <= i < |table| ::
      && |table[i].key| == 2 && AllPlain(table[i].key) && table[i].length < 256
      && (table[i].mode == ASCII || table[i].mode == HEX)
  }

  /** Field contents that belong to a table. */
  ghost predicate Belong(table: seq<Entry>, datas: seq<seq<byte>>) {
    && |datas| == |table|
    && forall i | 0 <= i < |table| ::
         |datas[i]| == table[i].length && (table[i].mode == ASCII ==> PaddedText(datas[i]))
  }

  /** And whose lines the reader's buffer can hold. */
  ghost predicate DatasOk(table: seq<Entry>, datas: seq<seq<byte>>) {
    Belong(table, datas) && forall i | 0 <= i < |table| :: |Line(table[i], datas[i])| + 2 < 512
  }

  predicate VersionOk(data: seq<byte>) {
    |data| >= 2 && data[0] == 0x01 && data[1] == 0x02
  }

  // ---- one line, character by character ----

  /** token: the characters of the current field; fields: how many are complete; data: the content once known. */
  datatype Parse = Parse(token: seq<byte>, fields: nat, err: bool, quit: bool, data: seq<byte>)

  function Pad(n: nat, t: seq<byte>): (s: seq<byte>)
    requires |t| <= n
    ensures |s| == n
  {
    t + seq(n - |t|, _ => NUL)
  }

  function PadLeft(n: nat, t: seq<byte>): (s: seq<byte>)
    requires |t| <= n
    ensures |s| == n
  {
    seq(n - |t|, _ => NUL) + t
  }

  /** The fourth field; None is a syntax error. */
  function Content(e: Entry, first: bool, t: seq<byte>): Option<seq<byte>> {
    if e.mode == ASCII then
      if |t| <= e.length then Some(Pad(e.length, t)) else None
    else if e.mode == HEX && |t| <= 2 * e.length then
      var d := PadLeft(e.length, FromHex(t));
      if first && !VersionOk(d + [NUL, NUL]) then None else Some(d)
    else None
  }

  /** The end of a field: what is checked depends on its number. */
  function EndField(e: Entry, first: bool, p: Parse): Parse {
    var next := p.(token := [], fields := p.fields + 1);
    var bad := p.(err := true);
    if p.fields == 0 then
      if |p.token| != 2 then next.(quit := true) else if p.token == e.key then next else bad
    else if p.fields == 1 then if ScanDec(p.token) == Some(e.length) then next else bad
    else if p.fields == 2 then if p.token == [e.mode] then next else bad
    else if p.fields == 3 then
      match Content(e, first, p.token)
      case None => bad
      case Some(d) => next.(data := d)
    else next
  }

  function Char(e: Entry, first: bool, p: Parse, c: byte): Parse {
    if p.err || p.quit then p
    else if c == COMMA || c == NUL then EndField(e, first, p)
    else if c == QUOTE then p
    else p.(token := p.token + [c])
  }

  function Chars(e: Entry, first: bool, p: Parse, s: seq<byte>): Parse
    decreases |s|
  {
    if s == [] then p else Chars(e, first, Char(e, first, p, s[0]), s[1..])
  }

  datatype LineResult = Bad | Skip | Good(record: seq<byte>)

  function ParseLine(e: Entry, first: bool, line: seq<byte>): LineResult {
    var p := Chars(e, first, Parse([], 0, false, false, []), line + [NUL]);
    if p.err then Bad else if p.fields < 4 then Skip else Good(Record(e, p.data))
  }

  lemma CharsFirst(e: Entry, first: bool, p: Parse, c: byte, s: seq<byte>)
    ensures Chars(e, first, p, [c] + s) == Chars(e, first, Char(e, first, p, c), s)
  {
    hide Char;
    assert ([c] + s)[1..] == s;
  }

  lemma {:induction false} PlainChars(e: Entry, first: bool, p: Parse, t: seq<byte>, s: seq<byte>)
    requires AllPlain(t) && !p.err && !p.quit
    ensures Chars(e, first, p, t + s) == Chars(e, first, p.(token := p.token + t), s)
    decreases |t|
  {
    if t == [] {
      assert t + s == s && p.token + t == p.token;
    } else {
      assert t + s == [t[0]] + (t[1..] + s);
      CharsFirst(e, first, p, t[0], t[1..] + s);
      assert Plain(t[0]);
      var q := Char(e, first, p, t[0]);
      hide Chars, EndField;
      PlainChars(e, first, q, t[1..], s);
      assert p.token + [t[0]] + t[1..] == p.token + t;
    }
  }

  /** The columns of a line: commas end them, and quotes do not count. */
  function Columns(line: seq<byte>): (c: seq<seq<byte>>)
    ensures c != []
  {
    if line == [] then [[]]
    else
      var c := Columns(line[1..]);
      if line[0] == 0x2c then [[]] + c
      else if line[0] == 0x22 then c
      else [[line[0]] + c[0]] + c[1..]
  }

  /** The fields of a line end one by one. */
  function Ends(e: Entry, first: bool, p: Parse, c: seq<seq<byte>>): Parse
    decreases |c|
  {
    if c == [] || p.err || p.quit then p else Ends(e, first, EndField(e, first, p.(token := c[0])), c[1..])
  }

  lemma {:induction false} ColumnsEnd(e: Entry, first: bool, p: Parse, line: seq<byte>)
    requires 0x00 !in line && !p.err && !p.quit
    ensures var c := Columns(line);
            Chars(e, first, p, line + [0x00]) == Ends(e, first, p, [p.token + c[0]] + c[1..])
    decreases |line|
  {
    hide EndField, Chars, Ends;
    var c := Columns(line);
    if line == [] {
      assert line + [0x00] == [0x00] + [] && p.token + c[0] == p.token && c[1..] == [];
      CharsFirst(e, first, p, 0x00, []);
      NoMoreChars(e, first, Char(e, first, p, 0x00));
      EndsFirst(e, first, p, p.token, []);
      EndsLast(e, first, EndField(e, first, p));
    } else {
      var rest, d := line[1..], Columns(line[1..]);
      assert line + [0x00] == [line[0]] + (rest + [0x00]);
      CharsFirst(e, first, p, line[0], rest + [0x00]);
      var q := Char(e, first, p, line[0]);
      if line[0] == 0x2c {
        assert p.token + c[0] == p.token && c[1..] == d;
        EndsFirst(e, first, p, p.token, d);
        if q.err || q.quit {
          Stopped(e, first, q, rest + [0x00], d);
        } else {
          EndFieldResets(e, first, p);
          assert q.token + d[0] == d[0] && [d[0]] + d[1..] == d;
          ColumnsEnd(e, first, q, rest);
        }
      } else if line[0] == 0x22 {
        ColumnsEnd(e, first, p, rest);
      } else {
        Regroup(p.token, [line[0]], d[0]);
        ColumnsEnd(e, first, q, rest);
        EndsToken(e, first, p, q, [p.token + c[0]] + c[1..]);
      }
    }
  }

  lemma EndsFirst(e: Entry, first: bool, p: Parse, t: seq<byte>, c: seq<seq<byte>>)
    requires !p.err && !p.quit
    ensures Ends(e, first, p, [t] + c) == Ends(e, first, EndField(e, first, p.(token := t)), c)
  {
    hide EndField;
    assert ([t] + c)[1..] == c;
  }

  lemma EndsLast(e: Entry, first: bool, p: Parse)
    ensures Ends(e, first, p, []) == p
  {
  }

  lemma EndsToken(e: Entry, first: bool, p: Parse, q: Parse, c: seq<seq<byte>>)
    requires c != [] && q == p.(token := q.token) && !p.err && !p.quit
    ensures Ends(e, first, p, c) == Ends(e, first, q, c)
  {
    hide EndField;
    assert p.(token := c[0]) == q.(token := c[0]);
  }

  lemma EndFieldResets(e: Entry, first: bool, p: Parse)
    ensures !EndField(e, first, p).err ==> EndField(e, first, p).token == []
  {
    hide Content, ScanDec;
  }

  lemma {:induction false} Stopped(e: Entry, first: bool, p: Parse, s: seq<byte>, c: seq<seq<byte>>)
    requires p.err || p.quit
    ensures Chars(e, first, p, s) == p && Ends(e, first, p, c) == p
    decreases |s|
  {
    hide EndField;
    if s != [] {
      Stopped(e, first, p, s[1..], c);
    }
  }

  /** Fields behind the fourth are not looked at. */
  lemma {:induction false} MoreColumns(e: Entry, first: bool, p: Parse, c: seq<seq<byte>>)
    requires p.fields >= 4 && !p.err && !p.quit
    ensures var q := Ends(e, first, p, c); !q.err && q.fields >= 4 && q.data == p.data
    decreases |c|
  {
    hide Content, ScanDec;
    if c != [] {
      MoreColumns(e, first, EndField(e, first, p.(token := c[0])), c[1..]);
    }
  }

  /** What becomes of a line follows from its columns: the first one that is wrong decides. */
  lemma LineVerdict(e: Entry, first: bool, line: seq<byte>)
    requires 0x00 !in line
    ensures var c := Columns(line);
            ParseLine(e, first, line) ==
            if |c[0]| != 2 then Skip
            else if c[0] != e.key then Bad
            else if |c| == 1 then Skip
            else if ScanDec(c[1]) != Some(e.length) then Bad
            else if |c| == 2 then Skip
            else if c[2] != [e.mode] then Bad
            else if |c| == 3 then Skip
            else match Content(e, first, c[3])
              case None => Bad
              case Some(d) => Good(e.key + [(e.length % 256) as byte, e.mode] + d)
  {
    hide Chars, Columns, Content, ScanDec, Ends;
    var c, p := Columns(line), Parse([], 0, false, false, []);
    ColumnsEnd(e, first, p, line);
    assert [] + c[0] == c[0];
    EndsFirst(e, first, p, c[0], c[1..]);
    var p1 := EndField(e, first, p.(token := c[0]));
    if |c[0]| != 2 || c[0] != e.key {
      Stopped(e, first, p1, [], c[1..]);
    } else if |c| == 1 {
      EndsLast(e, first, p1);
    } else {
      assert c[1..] == [c[1]] + c[2..];
      EndsFirst(e, first, p1, c[1], c[2..]);
      var p2 := EndField(e, first, p1.(token := c[1]));
      if ScanDec(c[1]) != Some(e.length) {
        Stopped(e, first, p2, [], c[2..]);
      } else {
        LaterColumns(e, first, c);
      }
    }
  }

  /** Text is padded with zeros behind it, and the bytes of digits with zeros in front; the first line of the table has
      the version. Longer content and other modes are refused. */
  lemma FourthColumn(e: Entry, first: bool, t: seq<byte>)
    ensures Content(e, first, t) ==
            if e.mode == 0x41 && |t| <= e.length then Some(t + seq(e.length - |t|, _ => 0x00))
            else if e.mode == 0x58 && |t| <= 2 * e.length then
              var d := seq(e.length - |FromHex(t)|, _ => 0x00) + FromHex(t);
              if first && (d + [0x00, 0x00])[..2] != [0x01, 0x02] then None else Some(d)
            else None
  {
    hide FromHex;
    if e.mode == 0x41 && |t| <= e.length {
      assert Pad(e.length, t) == t + seq(e.length - |t|, _ => 0x00);
    } else if e.mode == 0x58 && |t| <= 2 * e.length {
      assert PadLeft(e.length, FromHex(t)) == seq(e.length - |FromHex(t)|, _ => 0x00) + FromHex(t);
    }
  }

  lemma LaterColumns(e: Entry, first: bool, c: seq<seq<byte>>)
    requires |c| >= 2
    ensures var q := Ends(e, first, Parse([], 2, false, false, []), c[2..]);
            if |c| == 2 then !q.err && q.fields < 4
            else if c[2] != [e.mode] then q.err
            else if |c| == 3 then !q.err && q.fields < 4
            else match Content(e, first, c[3])
              case None => q.err
              case Some(d) => !q.err && q.fields >= 4 && q.data == d
  {
    hide Content, ScanDec, Ends;
    var p2 := Parse([], 2, false, false, []);
    if |c| == 2 {
      assert c[2..] == [];
      EndsLast(e, first, p2);
    } else {
      assert c[2..] == [c[2]] + c[3..];
      EndsFirst(e, first, p2, c[2], c[3..]);
      var p3 := EndField(e, first, p2.(token := c[2]));
      if c[2] != [e.mode] {
        Stopped(e, first, p3, [], c[3..]);
      } else if |c| == 3 {
        EndsLast(e, first, p3);
      } else {
        assert c[3..] == [c[3]] + c[4..];
        EndsFirst(e, first, p3, c[3], c[4..]);
        var p4 := EndField(e, first, p3.(token := c[3]));
        if p4.err {
          Stopped(e, first, p4, [], c[4..]);
        } else {
          MoreColumns(e, first, p4, c[4..]);
        }
      }
    }
  }

  /** Padded text loses its padding and gets it back. */
  lemma {:induction false} ShownText(s: seq<byte>)
    requires PaddedText(s)
    ensures |Shown(s)| <= |s| && Pad(|s|, Shown(s)) == s && AllPlain(Shown(s))
    decreases |s|
  {
    var n: nat :| TextThenZeros(s, n);
    ShownPrefix(s, n);
    assert s == s[..n] + seq(|s| - n, _ => NUL);
  }

  lemma {:induction false} ShownPrefix(s: seq<byte>, n: nat)
    requires n <= |s| && (forall i | 0 <= i < n :: IsPrint(s[i])) && (forall i | n <= i < |s| :: s[i] == NUL)
    ensures Shown(s) == s[..n]
    decreases |s|
  {
    if s != [] {
      var front := s[..|s| - 1];
      if n == |s| {
        ShownPrefix(front, n - 1);
        assert s == front + [s[n - 1]];
      } else {
        ShownPrefix(front, n);
        assert s[|s| - 1] == NUL;
      }
    }
  }

  /** What becomes of the content of a line: hexadecimal digits are stored right aligned. */
  function AsStored(e: Entry, data: seq<byte>): seq<byte>
    requires |data| <= e.length
  {
    if e.mode == HEX then PadLeft(e.length, data) else data
  }

  /** Reading a line that was printed with all its content, or with too few hexadecimal digits. */
  lemma LineParses(e: Entry, first: bool, data: seq<byte>)
    requires |e.key| == 2 && AllPlain(e.key) && e.length < 256 && (e.mode == ASCII || e.mode == HEX)
    requires |data| <= e.length && (e.mode == ASCII ==> |data| == e.length && PaddedText(data))
    requires first && e.mode == HEX ==> VersionOk(AsStored(e, data))
    ensures ParseLine(e, first, Line(e, data)) == Good(Record(e, AsStored(e, data)))
  {
    hide Chars, Field, Dec, Record, Content, PaddedText, AsStored;
    var p0, p1, p3 := Parse([], 0, false, false, []), Parse([], 1, false, false, []), Parse([], 3, false, false, []);
    var t := Field(e, data) + [NUL];
    var rest := Dec(e.length) + ([COMMA, QUOTE, e.mode, QUOTE, COMMA] + t);
    LineParts(e, data);
    KeyChars(e, first, p0, rest);
    assert Chars(e, first, p0, Line(e, data) + [NUL]) == Chars(e, first, p1, rest);
    NumberChars(e, first, p1, t);
    FieldChars(e, first, p3, data);
  }

  lemma StoredWhole(e: Entry, data: seq<byte>)
    requires |data| == e.length
    ensures AsStored(e, data) == data
  {
  }

  /** Reading a printed line gives the record it was printed from. */
  lemma LineRoundTrip(e: Entry, first: bool, data: seq<byte>)
    requires |e.key| == 2 && AllPlain(e.key) && e.length < 256 && (e.mode == ASCII || e.mode == HEX)
    requires |data| == e.length && (e.mode == ASCII ==> PaddedText(data))
    requires first && e.mode == HEX ==> VersionOk(data)
    ensures ParseLine(e, first, Line(e, data)) == Good(Record(e, data))
  {
    hide ParseLine, Line, AsStored, PaddedText, VersionOk;
    StoredWhole(e, data);
    LineParses(e, first, data);
  }

  lemma LineParts(e: Entry, data: seq<byte>)
    ensures Line(e, data) + [NUL] ==
            [QUOTE] + (e.key + ([QUOTE, COMMA]
                                + (Dec(e.length) + ([COMMA, QUOTE, e.mode, QUOTE, COMMA] + (Field(e, data) + [NUL])))))
  {
    hide Field, Dec;
    var f, n, m := Field(e, data), Dec(e.length), [COMMA, QUOTE, e.mode, QUOTE, COMMA];
    Regroup(m, f, [NUL]);
    Regroup(n, m + f, [NUL]);
    Regroup([QUOTE, COMMA], n + (m + f), [NUL]);
    Regroup(e.key, [QUOTE, COMMA] + (n + (m + f)), [NUL]);
    Regroup([QUOTE], e.key + ([QUOTE, COMMA] + (n + (m + f))), [NUL]);
  }

  lemma KeyChars(e: Entry, first: bool, p: Parse, s: seq<byte>)
    requires p == Parse([], 0, false, false, []) && |e.key| == 2 && AllPlain(e.key)
    ensures Chars(e, first, p, [QUOTE] + (e.key + ([QUOTE, COMMA] + s))) ==
            Chars(e, first, Parse([], 1, false, false, []), s)
  {
    hide Chars;
    CharsFirst(e, first, p, QUOTE, e.key + ([QUOTE, COMMA] + s));
    PlainChars(e, first, p, e.key, [QUOTE, COMMA] + s);
    var q := p.(token := [] + e.key);
    assert [QUOTE, COMMA] + s == [QUOTE] + ([COMMA] + s);
    CharsFirst(e, first, q, QUOTE, [COMMA] + s);
    CharsFirst(e, first, q, COMMA, s);
    assert [] + e.key == e.key;
  }

  lemma NumberChars(e: Entry, first: bool, p: Parse, t: seq<byte>)
    requires p == Parse([], 1, false, false, []) && (e.mode == ASCII || e.mode == HEX)
    ensures Chars(e, first, p, Dec(e.length) + ([COMMA, QUOTE, e.mode, QUOTE, COMMA] + t))
         == Chars(e, first, Parse([], 3, false, false, []), t)
  {
    DecRoundTrip(e.length);
    hide Chars, Dec, ScanDec, Content;
    var n, m := Dec(e.length), [COMMA, QUOTE, e.mode, QUOTE, COMMA];
    PlainChars(e, first, p, n, m + t);
    var q := p.(token := [] + n);
    assert [] + n == n;
    assert m + t == [COMMA] + ([QUOTE] + ([e.mode] + ([QUOTE] + ([COMMA] + t))));
    CharsFirst(e, first, q, COMMA, [QUOTE] + ([e.mode] + ([QUOTE] + ([COMMA] + t))));
    var p2 := Parse([], 2, false, false, []);
    CharsFirst(e, first, p2, QUOTE, [e.mode] + ([QUOTE] + ([COMMA] + t)));
    CharsFirst(e, first, p2, e.mode, [QUOTE] + ([COMMA] + t));
    var p3 := p2.(token := [] + [e.mode]);
    assert [] + [e.mode] == [e.mode];
    CharsFirst(e, first, p3, QUOTE, [COMMA] + t);
    CharsFirst(e, first, p3, COMMA, t);
  }

  lemma FieldChars(e: Entry, first: bool, p: Parse, data: seq<byte>)
    requires p == Parse([], 3, false, false, []) && (e.mode == ASCII || e.mode == HEX)
    requires |data| <= e.length && (e.mode == ASCII ==> |data| == e.length && PaddedText(data))
    requires first && e.mode == HEX ==> VersionOk(AsStored(e, data))
    ensures Chars(e, first, p, Field(e, data) + [NUL]) == Parse([], 4, false, false, AsStored(e, data))
  {
    hide Chars, Content, Shown, Hex, PaddedText, VersionOk, AsStored;
    var body := if e.mode == ASCII then Shown(data) else Hex(data);
    ContentRoundTrip(e, first, data);
    if e.mode == ASCII {
      assert Field(e, data) + [NUL] == [QUOTE] + (body + ([QUOTE] + [NUL]));
      CharsFirst(e, first, p, QUOTE, body + ([QUOTE] + [NUL]));
      PlainChars(e, first, p, body, [QUOTE] + [NUL]);
      CharsFirst(e, first, p.(token := [] + body), QUOTE, [NUL]);
    } else {
      PlainChars(e, first, p, body, [NUL]);
    }
    assert [] + body == body;
    LastChar(e, first, p.(token := body), AsStored(e, data));
  }

  lemma LastChar(e: Entry, first: bool, p: Parse, data: seq<byte>)
    requires p.fields == 3 && !p.err && !p.quit && Content(e, first, p.token) == Some(data)
    ensures Chars(e, first, p, [NUL]) == Parse([], 4, false, false, data)
  {
    hide Content;
    assert [NUL][1..] == [];
    var q := Char(e, first, p, NUL);
    assert Chars(e, first, q, []) == q;
  }

  lemma ContentRoundTrip(e: Entry, first: bool, data: seq<byte>)
    requires (e.mode == ASCII || e.mode == HEX) && |data| <= e.length
    requires e.mode == ASCII ==> |data| == e.length && PaddedText(data)
    requires first && e.mode == HEX ==> VersionOk(AsStored(e, data))
    ensures e.mode == ASCII ==> Content(e, first, Shown(data)) == Some(AsStored(e, data)) && AllPlain(Shown(data))
    ensures e.mode == HEX ==> Content(e, first, Hex(data)) == Some(AsStored(e, data)) && AllPlain(Hex(data))
  {
    if e.mode == ASCII {
      ShownText(data);
    } else {
      HexRoundTrip(data);
    }
    hide Shown, Hex, FromHex, Pad, PadLeft, PaddedText;
  }

  // ---- whole files ----

  /** Bytes that one fgets takes: up to and with the newline, and at most MAX_LINE - 1. */
  function Fgets(text: seq<byte>, n: nat): (k: nat)
    requires n <= |text| && n < MAX_LINE
    ensures n <= k <= |text| && k < MAX_LINE
    ensures k > 0 || text == []
    decreases |text| - n
  {
    if n == MAX_LINE - 1 || n == |text| then n else if text[n] == NEWLINE then n + 1 else Fgets(text, n + 1)
  }

  /** A line ends behind its newline, with the text, or after 511 characters. */
  lemma FgetsText(text: seq<byte>)
    ensures var n := Fgets(text, 0);
            && n <= 511 && (n == |text| || n == 511 || text[n - 1] == 0x0a)
            && forall i | 0 <= i < n - 1 :: text[i] != 0x0a
  {
    FgetsFrom(text, 0);
  }

  lemma {:induction false} FgetsFrom(text: seq<byte>, n: nat)
    requires n <= |text| && n < MAX_LINE
    ensures var k := Fgets(text, n);
            && (k == |text| || k == 511 || (k > 0 && text[k - 1] == 0x0a))
            && forall i | n <= i < k - 1 :: text[i] != 0x0a
    decreases |text| - n
  {
    if n != MAX_LINE - 1 && n != |text| && text[n] != NEWLINE {
      FgetsFrom(text, n + 1);
    }
  }

  /** The table line the reader is at; behind the last one there is none. */
  function Current(table: seq<Entry>): Entry {
    if table == [] then Entry([], 0, NUL) else table[0]
  }

  /** Texts the reader may be given: lines of at least two characters without zeros, and behind the last record only
      lines that it ignores without looking into the table. */
  predicate Readable(table: seq<Entry>, first: bool, text: seq<byte>)
    decreases |text|
  {
    text == [] ||
    var n := Fgets(text, 0);
    n >= 2 && NUL !in text[..n] &&
    match ParseLine(Current(table), first, text[..n - 2])
    case Bad => table != []
    case Skip => Readable(table, first, text[n..])
    case Good(_) => table != [] && Readable(table[1..], false, text[n..])
  }

  /** The records read from a text, appended to out; the table holds the lines still expected. */
  function ReadAll(table: seq<Entry>, first: bool, text: seq<byte>, out: seq<byte>): (bool, seq<byte>)
    requires Readable(table, first, text)
    decreases |text|
  {
    if text == [] then (table == [], out)
    else
      var n := Fgets(text, 0);
      match ParseLine(Current(table), first, text[..n - 2])
      case Bad => (false, out)
      case Skip => ReadAll(table, first, text[n..], out)
      case Good(r) =>
        if |out + r| > BUFFER_SIZE then (false, out + r) else ReadAll(table[1..], false, text[n..], out + r)
  }

  function Size(table: seq<Entry>): nat {
    if table == [] then 0 else 4 + table[0].length + Size(table[1..])
  }

  function Head(e: Entry): seq<byte> {
    e.key + [LowLen(e.length), e.mode]
  }

  /** The CSV form of an image, if each record has the head the table asks for, and the first one the version. */
  function PrintAll(table: seq<Entry>, first: bool, image: seq<byte>): Option<seq<byte>>
    requires |image| == Size(table)
  {
    if table == [] then Some([])
    else
      var e, body := table[0], image[4..];
      if image[..4] != Head(e) || (first && e.mode == HEX && !VersionOk(body)) then None
      else
        match PrintAll(table[1..], false, body[e.length..])
        case None => None
        case Some(s) => Some(Line(e, body[..e.length]) + [COMMA, NEWLINE] + s)
  }

  // ---- round trips ----

  predicate NoNewline(s: seq<byte>) {
    NEWLINE !in s && NUL !in s
  }

  lemma LineHasNoNewline(e: Entry, data: seq<byte>)
    requires |e.key| == 2 && AllPlain(e.key) && (e.mode == ASCII || e.mode == HEX)
    requires |data| == e.length && (e.mode == ASCII ==> PaddedText(data))
    ensures NoNewline(Line(e, data))
  {
    hide Dec, Shown, Hex, PaddedText, ScanDec, FromHex, Pad, AllPlain;
    DecRoundTrip(e.length);
    if e.mode == ASCII {
      ShownText(data);
    } else {
      HexRoundTrip(data);
    }
    PlainHasNone(e.key);
    PlainHasNone(Dec(e.length));
    PlainHasNone(if e.mode == ASCII then Shown(data) else Hex(data));
    assert NoNewline(Field(e, data));
  }

  lemma PlainHasNone(s: seq<byte>)
    requires AllPlain(s)
    ensures NoNewline(s)
  {
  }

  lemma {:induction false} FgetsLine(s: seq<byte>, rest: seq<byte>, n: nat)
    requires NEWLINE !in s && n <= |s| && |s| + 1 < MAX_LINE
    ensures Fgets(s + [NEWLINE] + rest, n) == |s| + 1
    decreases |s| - n
  {
    if n < |s| {
      assert (s + [NEWLINE] + rest)[n] == s[n];
      FgetsLine(s, rest, n + 1);
    }
  }

  /** The reader's first line of a printed text, and what follows it. */
  lemma FirstLine(line: seq<byte>, rest: seq<byte>)
    requires NoNewline(line) && |line| + 2 < MAX_LINE
    ensures var text := line + [COMMA, NEWLINE] + rest; var n := Fgets(text, 0);
            && n == |line| + 2 && text[..n - 2] == line && text[n..] == rest && NUL !in text[..n]
  {
    var s := line + [COMMA];
    assert line + [COMMA, NEWLINE] + rest == s + [NEWLINE] + rest;
    FgetsLine(s, rest, 0);
    var text := line + [COMMA, NEWLINE] + rest;
    assert text[..|line| + 2] == line + [COMMA, NEWLINE];
  }

  /** Printed lines are read as the image they were printed from, and reading goes on with the next table line. */
  lemma {:induction false} ReadsLines(table: seq<Entry>, datas: seq<seq<byte>>, more: seq<Entry>, first: bool,
                                      rest: seq<byte>, out: seq<byte>)
    requires TableOk(table) && DatasOk(table, datas)
    requires first && table != [] && table[0].mode == HEX ==> VersionOk(datas[0])
    requires |out| + |Image(table, datas)| <= BUFFER_SIZE && Readable(more, first && table == [], rest)
    ensures Readable(table + more, first, Csv(table, datas) + rest)
    ensures ReadAll(table + more, first, Csv(table, datas) + rest, out) ==
            ReadAll(more, first && table == [], rest, out + Image(table, datas))
    decreases |table|
  {
    hide Line, Record, Fgets, ParseLine, VersionOk, PaddedText;
    if table == [] {
      assert out + [] == out && table + more == more && [] + rest == rest;
    } else {
      var e, d := table[0], datas[0];
      var line, tail := Line(e, d) + [COMMA, NEWLINE], Csv(table[1..], datas[1..]);
      LineHasNoNewline(e, d);
      FirstLine(Line(e, d), tail + rest);
      LineRoundTrip(e, first, d);
      ReadsLines(table[1..], datas[1..], more, false, rest, out + Record(e, d));
      Regroup(line, tail, rest);
      assert (table + more)[0] == e && (table + more)[1..] == table[1..] + more;
      Regroup(out, Record(e, d), Image(table[1..], datas[1..]));
    }
  }

  /** Reading what was printed for a table gives back the image. */
  lemma ReadsCsv(table: seq<Entry>, datas: seq<seq<byte>>, first: bool, out: seq<byte>)
    requires TableOk(table) && DatasOk(table, datas)
    requires first && table != [] && table[0].mode == HEX ==> VersionOk(datas[0])
    requires |out| + |Image(table, datas)| <= BUFFER_SIZE
    ensures Readable(table, first, Csv(table, datas))
    ensures ReadAll(table, first, Csv(table, datas), out) == (true, out + Image(table, datas))
  {
    hide Csv, Image, TableOk;
    ReadsLines(table, datas, [], first, [], out);
    assert table + [] == table && Csv(table, datas) + [] == Csv(table, datas);
  }

  /** Behind any lines that were printed for the table, a line with another key, length or mode than the table asks for,
      or with content that does not fit, is refused, whatever follows. */
  lemma WrongLineRefused(table: seq<Entry>, datas: seq<seq<byte>>, more: seq<Entry>, first: bool, line: seq<byte>,
                         rest: seq<byte>, out: seq<byte>)
    requires TableOk(table) && DatasOk(table, datas) && more != []
    requires first && table != [] && table[0].mode == HEX ==> VersionOk(datas[0])
    requires |out| + |Image(table, datas)| <= BUFFER_SIZE
    requires 0x00 !in line && 0x0a !in line && |line| + 2 < 512
    requires var c, e := Columns(line), more[0];
             && |c[0]| == 2
             && (c[0] != e.key || (|c| >= 2 && ScanDec(c[1]) != Some(e.length)) || (|c| >= 3 && c[2] != [e.mode])
                 || (|c| >= 4 && Content(e, first && table == [], c[3]) == None))
    ensures var text := Csv(table, datas) + (line + [0x2c, 0x0a] + rest);
            && Readable(table + more, first, text)
            && ReadAll(table + more, first, text, out) == (false, out + Image(table, datas))
  {
    hide Csv, Image, TableOk, DatasOk, Columns, ParseLine, Fgets, Content, ScanDec, VersionOk;
    var tail := line + [COMMA, NEWLINE] + rest;
    LineVerdict(more[0], first && table == [], line);
    FirstLine(line, rest);
    ReadsLines(table, datas, more, first, tail, out);
  }

  /** A text that ends before all lines of the table were found is refused. */
  lemma MissingLineRefused(table: seq<Entry>, datas: seq<seq<byte>>, more: seq<Entry>, first: bool, out: seq<byte>)
    requires TableOk(table) && DatasOk(table, datas) && more != []
    requires first && table != [] && table[0].mode == HEX ==> VersionOk(datas[0])
    requires |out| + |Image(table, datas)| <= BUFFER_SIZE
    ensures Readable(table + more, first, Csv(table, datas))
    ensures ReadAll(table + more, first, Csv(table, datas), out) == (false, out + Image(table, datas))
  {
    hide Csv, Image, TableOk, VersionOk;
    ReadsLines(table, datas, more, first, [], out);
    assert Csv(table, datas) + [] == Csv(table, datas);
  }

  /** Success means that the output is an image of the whole table, with the right version, in 64 kilobytes. */
  lemma {:induction false} AcceptedIsImage(table: seq<Entry>, first: bool, text: seq<byte>, out: seq<byte>)
    returns (datas: seq<seq<byte>>)
    requires Readable(table, first, text) && ReadAll(table, first, text, out).0
    ensures |datas| == |table| && forall i | 0 <= i < |table| :: |datas[i]| == table[i].length
    ensures ReadAll(table, first, text, out).1 == out + Image(table, datas)
    ensures first && table != [] && table[0].mode == 0x58 ==> (datas[0] + [0x00, 0x00])[..2] == [0x01, 0x02]
    ensures |out| <= 0x1_0000 ==> |out + Image(table, datas)| <= 0x1_0000
    decreases |text|
  {
    hide ParseLine, Fgets, Record;
    if text == [] {
      datas := [];
      assert out + [] == out;
    } else {
      var n := Fgets(text, 0);
      var r := ParseLine(Current(table), first, text[..n - 2]);
      if r == Skip {
        datas := AcceptedIsImage(table, first, text[n..], out);
      } else {
        var e := table[0];
        var d := GoodRecord(e, first, text[..n - 2]);
        var more := AcceptedIsImage(table[1..], false, text[n..], out + Record(e, d));
        datas := [d] + more;
        assert datas[1..] == more;
        Regroup(out, Record(e, d), Image(table[1..], more));
      }
    }
  }

  lemma GoodRecord(e: Entry, first: bool, line: seq<byte>) returns (d: seq<byte>)
    requires ParseLine(e, first, line).Good? && 0x00 !in line
    ensures |d| == e.length && ParseLine(e, first, line) == Good(Record(e, d))
    ensures first && e.mode == 0x58 ==> (d + [0x00, 0x00])[..2] == [0x01, 0x02]
  {
    hide Columns, ParseLine, Content, ScanDec;
    LineVerdict(e, first, line);
    FourthColumn(e, first, Columns(line)[3]);
    d := Content(e, first, Columns(line)[3]).value;
  }

  /** Printing the image of a table gives its CSV form. */
  lemma {:induction false} PrintsImage(table: seq<Entry>, datas: seq<seq<byte>>, first: bool)
    requires TableOk(table) && Belong(table, datas)
    requires first && table != [] && table[0].mode == HEX ==> VersionOk(datas[0])
    ensures |Image(table, datas)| == Size(table)
    ensures PrintAll(table, first, Image(table, datas)) == Some(Csv(table, datas))
    decreases |table|
  {
    hide Line, PaddedText, LowLen;
    if table != [] {
      var e, d, rest := table[0], datas[0], Image(table[1..], datas[1..]);
      var image := Image(table, datas);
      PrintsImage(table[1..], datas[1..], false);
      assert image[..4] == Head(e) && image[4..] == d + rest;
      assert (d + rest)[..e.length] == d && (d + rest)[e.length..] == rest;
    }
  }

  /** What is printed is an image of the table with the right version. */
  lemma {:induction false} PrintedIsImage(table: seq<Entry>, first: bool, image: seq<byte>)
    returns (datas: seq<seq<byte>>)
    requires |image| == Size(table) && PrintAll(table, first, image).Some?
    requires forall i | 0 <= i < |table| :: |table[i].key| == 2
    ensures |datas| == |table| && forall i | 0 <= i < |table| :: |datas[i]| == table[i].length
    ensures image == Image(table, datas) && PrintAll(table, first, image) == Some(Csv(table, datas))
    ensures first && table != [] && table[0].mode == 0x58 ==>
              (datas[0] + image[4 + table[0].length..])[..2] == [0x01, 0x02]
    decreases |table|
  {
    hide Line, LowLen;
    if table == [] {
      datas := [];
    } else {
      var e, body := table[0], image[4..];
      var d, rest := body[..e.length], body[e.length..];
      var more := PrintedIsImage(table[1..], false, rest);
      datas := [d] + more;
      assert datas[1..] == more && body == d + rest;
      assert image == image[..4] + body && image[4 + e.length..] == rest;
      assert Record(e, d) == Head(e) + d;
      Regroup(Head(e), d, rest);
    }
  }

  /** For every layout table and every image that belongs to it, reading the printed form returns the image. */
  lemma VpdRoundTrip(table: seq<Entry>, datas: seq<seq<byte>>)
    requires TableOk(table) && DatasOk(table, datas)
    requires table != [] && table[0].mode == HEX ==> VersionOk(datas[0])
    requires |Image(table, datas)| <= 0x1_0000
    ensures |Image(table, datas)| == Size(table)
    ensures var csv := PrintAll(table, true, Image(table, datas));
            && csv.Some? && Readable(table, true, csv.value)
            && ReadAll(table, true, csv.value, []) == (true, Image(table, datas))
  {
    PrintsImage(table, datas, true);
    ReadsCsv(table, datas, true, []);
    assert [] + Image(table, datas) == Image(table, datas);
  }

  // ---- lines that the reader's buffer cannot hold ----

  lemma {:induction false} HexConcat(a: seq<byte>, b: seq<byte>)
    ensures Hex(a + b) == Hex(a) + Hex(b)
    decreases |b|
  {
    hide Pair;
    if b == [] {
      assert a + b == a && Hex(a) + [] == Hex(a);
    } else {
      var front := b[..|b| - 1];
      assert (a + b)[..|a + b| - 1] == a + front;
      HexConcat(a, front);
      Regroup(Hex(a), Hex(front), Pair(b[|b| - 1]));
    }
  }

  lemma LineGoesOn(e: Entry, a: seq<byte>, b: seq<byte>)
    requires e.mode == HEX
    ensures Line(e, a + b) == Line(e, a) + Hex(b)
  {
    HexConcat(a, b);
    hide Hex, Dec;
    assert Field(e, a + b) == Field(e, a) + Hex(b);
    LineAdds(e.key, Dec(e.length), [COMMA, QUOTE, e.mode, QUOTE, COMMA], Field(e, a), Hex(b));
  }

  lemma LineAdds(key: seq<byte>, n: seq<byte>, m: seq<byte>, f: seq<byte>, t: seq<byte>)
    ensures [QUOTE] + (key + ([QUOTE, COMMA] + (n + (m + (f + t))))) ==
            [QUOTE] + (key + ([QUOTE, COMMA] + (n + (m + f)))) + t
  {
    Regroup(m, f, t);
    Regroup(n, m + f, t);
    Regroup([QUOTE, COMMA], n + (m + f), t);
    Regroup(key, [QUOTE, COMMA] + (n + (m + f)), t);
    Regroup([QUOTE], key + ([QUOTE, COMMA] + (n + (m + f))), t);
  }

  /** 13 characters and two for each byte. */
  lemma LineLength(e: Entry, data: seq<byte>)
    requires e.mode == HEX && |e.key| == 2 && 100 <= e.length < 256
    ensures |Line(e, data)| == 13 + 2 * |data|
  {
    HexRoundTrip(data);
    ThreeDigits(e.length);
    hide Hex, Dec;
  }

  lemma ThreeDigits(n: nat)
    requires 100 <= n < 256
    ensures |Dec(n)| == 3
  {
    hide Digit;
    assert |Dec(n / 10)| == |Dec(n / 10 / 10)| + 1;
  }

  lemma {:induction false} FgetsFull(text: seq<byte>, n: nat)
    requires n < MAX_LINE <= |text| && NEWLINE !in text[..MAX_LINE - 1]
    ensures Fgets(text, n) == MAX_LINE - 1
    decreases MAX_LINE - n
  {
    if n < MAX_LINE - 1 {
      assert text[..MAX_LINE - 1][n] == text[n];
      FgetsFull(text, n + 1);
    }
  }

  lemma TakeFront(a: seq<byte>, b: seq<byte>, c: seq<byte>)
    ensures (a + b + c)[..|a|] == a && (a + b + c)[..|a + b|] == a + b && (a + b + c)[|a + b|..] == c
  {
  }

  /** The buffer takes 511 characters, of which the last two are cut off like a comma and a newline. */
  lemma CutLine(e: Entry, data: seq<byte>, rest: seq<byte>)
    requires |e.key| == 2 && AllPlain(e.key) && e.mode == HEX && |data| == e.length && 249 <= e.length < 256
    ensures var text := Line(e, data) + [COMMA, NEWLINE] + rest;
            && Fgets(text, 0) == 511 && text[..509] == Line(e, data[..248]) && NUL !in text[..511]
            && text[511..] == Hex(data[249..]) + [COMMA, NEWLINE] + rest
  {
    var a, b, c := data[..248], [data[248]], data[249..];
    hide Line, Hex, Fgets;
    assert data == a + b + c;
    LineHasNoNewline(e, data);
    LineLength(e, a);
    LineLength(e, data);
    LineGoesOn(e, a + b, c);
    LineGoesOn(e, a, b);
    LineLength(e, a + b);
    var text, tail := Line(e, data) + [COMMA, NEWLINE] + rest, Hex(c) + [COMMA, NEWLINE] + rest;
    Regroup(Line(e, a + b), Hex(c), [COMMA, NEWLINE]);
    Regroup(Line(e, a + b), Hex(c) + [COMMA, NEWLINE], rest);
    assert text == Line(e, a) + Hex(b) + tail;
    TakeFront(Line(e, a), Hex(b), tail);
    assert text[..511] == Line(e, data)[..511];
    FgetsFull(text, 0);
  }

  /** What is left of the line is skipped: its first field has not two characters. */
  lemma SkipsRest(e: Entry, first: bool, t: seq<byte>)
    requires AllPlain(t) && |t| != 2
    ensures ParseLine(e, first, t) == Skip
  {
    hide Chars, Content;
    var p := Parse([], 0, false, false, []);
    PlainChars(e, first, p, t, [NUL]);
    assert [] + t == t;
    var q := p.(token := t);
    CharsFirst(e, first, q, NUL, []);
    assert [NUL] + [] == [NUL];
    NoMoreChars(e, first, Char(e, first, q, NUL));
  }

  lemma NoMoreChars(e: Entry, first: bool, p: Parse)
    ensures Chars(e, first, p, []) == p
  {
  }

  /** The rest of a cut line, up to its newline. */
  lemma RestIsSkipped(table: seq<Entry>, data: seq<byte>, rest: seq<byte>, out: seq<byte>)
    requires |data| != 1 && |data| < 8 && Readable(table, false, rest)
    ensures var text := Hex(data) + [COMMA, NEWLINE] + rest;
            Readable(table, false, text) && ReadAll(table, false, text, out) == ReadAll(table, false, rest, out)
  {
    HexRoundTrip(data);
    PlainHasNone(Hex(data));
    hide Hex, ParseLine, Fgets;
    FirstLine(Hex(data), rest);
    SkipsRest(Current(table), false, Hex(data));
  }

  /** A hexadecimal field of 249 bytes or more is read with success and with wrong content: the last bytes are lost and
      the others move to the end of the field; the reader goes on with the next line. The one exception is 250 bytes,
      where the rest of the line is taken for a key. */
  lemma LongFieldMisread(table: seq<Entry>, data: seq<byte>, rest: seq<byte>, out: seq<byte>)
    requires table != [] && |table[0].key| == 2 && AllPlain(table[0].key) && table[0].mode == HEX
    requires |data| == table[0].length && 249 <= |data| < 256 && |data| != 250
    requires Readable(table[1..], false, rest) && |out| + 4 + |data| <= BUFFER_SIZE
    ensures var text, read := Line(table[0], data) + [COMMA, NEWLINE] + rest, seq(|data| - 248, _ => NUL) + data[..248];
            && Readable(table, false, text)
            && ReadAll(table, false, text, out) == ReadAll(table[1..], false, rest, out + Record(table[0], read))
            && (read == data <==> forall i | 0 <= i < |data| :: data[i] == NUL)
  {
    var e, front := table[0], data[..248];
    var read := seq(|data| - 248, _ => NUL) + front;
    Shifted(data);
    hide Line, Hex, ParseLine, Fgets, Record;
    CutLine(e, data, rest);
    LineParses(e, false, front);
    assert AsStored(e, front) == read;
    RecordLength(e, read);
    RestIsSkipped(table[1..], data[249..], rest, out + Record(e, read));
  }

  lemma RecordLength(e: Entry, data: seq<byte>)
    requires |e.key| == 2
    ensures |Record(e, data)| == 4 + |data|
  {
  }

  /** Bytes that are the same after moving to the right are all zero. */
  lemma Shifted(data: seq<byte>)
    requires 249 <= |data| < 256
    ensures seq(|data| - 248, _ => NUL) + data[..248] == data <==> forall i | 0 <= i < |data| :: data[i] == NUL
  {
    var n := |data| - 248;
    var read := seq(n, _ => NUL) + data[..248];
    if forall i | 0 <= i < |data| :: data[i] == NUL {
      assert read == data;
    } else if read == data {
      ZerosMove(data, n, |data|);
    }
  }

  lemma {:induction false} ZerosMove(data: seq<byte>, n: nat, k: nat)
    requires 0 < n && k <= |data| == n + 248 && data == seq(n, _ => NUL) + data[..248]
    ensures forall i | 0 <= i < k :: data[i] == NUL
  {
    if k > 0 {
      ZerosMove(data, n, k - 1);
      assert data[k - 1] == (seq(n, _ => NUL) + data[..248])[k - 1];
    }
  }

  // ---- the code ----

  function Prepend(a: seq<byte>, s: Option<seq<byte>>): Option<seq<byte>> {
    match s
    case None => None
    case Some(t) => Some(a + t)
  }

  lemma PrependTwice(a: seq<byte>, b: seq<byte>, s: Option<seq<byte>>)
    ensures Prepend(a, Prepend(b, s)) == Prepend(a + b, s)
  {
    if s.Some? {
      Regroup(a, b, s.value);
    }
  }

  lemma PrintStep(table: seq<Entry>, first: bool, image: seq<byte>)
    requires table != [] && |image| == Size(table)
    ensures var e, body := table[0], image[4..];
            PrintAll(table, first, image) ==
            if image[..4] != Head(e) || (first && e.mode == HEX && !VersionOk(body)) then None
            else Prepend(Line(e, body[..e.length]) + [COMMA, NEWLINE], PrintAll(table[1..], false, body[e.length..]))
  {
    hide Line, Head, VersionOk;
  }

  lemma SizeIsZero(table: seq<Entry>)
    ensures Size(table) == 0 <==> table == []
    ensures table != [] ==> Size(table) == 4 + table[0].length + Size(table[1..])
  {
  }

  /** bin_2_csv; size is fs. On failure nothing is said about what was printed before. */
  method Bin2Csv(table: seq<Entry>, buffer: seq<byte>) returns (ok: bool, op: seq<byte>)
    requires |buffer| == Size(table) && forall i | 0 <= i < |table| :: table[i].length < 256
    ensures ok <==> PrintAll(table, true, buffer).Some?
    ensures ok ==> PrintAll(table, true, buffer) == Some(op)
  {
    hide Line, Head, VersionOk;
    op := [];
    var line, rest := 0, buffer;
    assert table[line..] == table;
    assert Prepend([], PrintAll(table, true, buffer)) == PrintAll(table, true, buffer) by {
      Nothing(PrintAll(table, true, buffer));
    }
    while rest != []
      invariant line <= |table| && |rest| == Size(table[line..])
      invariant PrintAll(table, true, buffer) == Prepend(op, PrintAll(table[line..], line == 0, rest))
      decreases |rest|
    {
      SizeIsZero(table[line..]);
      var e := table[line];
      assert table[line..][1..] == table[line + 1..];
      PrintStep(table[line..], line == 0, rest);
      var head := rest[..4];
      rest := rest[4..];
      if head != Head(e) {
        return false, op;
      }
      if e.mode == HEX && line == 0 && !VersionOk(rest) {
        return false, op;
      }
      PrependTwice(op, Line(e, rest[..e.length]) + [COMMA, NEWLINE],
                   PrintAll(table[line + 1..], false, rest[e.length..]));
      op := op + (Line(e, rest[..e.length]) + [COMMA, NEWLINE]);
      rest := rest[e.length..];
      line := line + 1;
    }
    SizeIsZero(table[line..]);
    if line != |table| {
      return false, op;
    }
    assert PrintAll([], line == 0, []) == Some([]) && op + [] == op;
    return true, op;
  }

  lemma Nothing(s: Option<seq<byte>>)
    ensures Prepend([], s) == s
  {
    if s.Some? {
      assert [] + s.value == s.value;
    }
  }

  lemma EmptyHex()
    ensures FromHex([]) == []
  {
  }

  /** The byte made of the last digits of t[..n]. */
  method TakeDigits(t: seq<byte>, n: nat) returns (rest: nat, ln: byte)
    requires 0 < n <= |t|
    ensures rest == if n == 1 then 0 else n - 2
    ensures FromHex(t[..n]) == FromHex(t[..rest]) + [ln]
  {
    hide A2h, Join2, FromHex;
    ghost var was := t[..n];
    FromHexEnd(was);
    rest := n - 1;
    ln := A2h(t[rest]);
    if rest > 0 {
      rest := rest - 1;
      ln := Join2(A2h(t[rest]), ln);
    }
    assert was[..rest] == t[..rest];
  }

  /** The fourth field of a line; data is the whole line buffer from its fifth byte on. */
  method ConvertHex(t: seq<byte>, length: nat) returns (data: seq<byte>)
    requires |t| <= 2 * length && length < 256
    ensures data == PadLeft(length, FromHex(t))
  {
    hide FromHex, PadLeft;
    EmptyHex();
    var buf := new byte[MAX_LINE](_ => NUL);
    var n: nat, dataLen: nat := |t|, length;
    ghost var done: seq<byte> := [];
    assert t[..n] == t && FromHex(t) + [] == FromHex(t);
    while n > 0
      invariant n <= |t| && n <= 2 * dataLen && dataLen + |done| == length
      invariant FromHex(t) == FromHex(t[..n]) + done
      invariant buf[4 + dataLen..4 + length] == done
      invariant forall k | 0 <= k < 4 + dataLen :: buf[k] == NUL
    {
      var rest, ln := TakeDigits(t, n);
      Regroup(FromHex(t[..rest]), [ln], done);
      Store(buf, 3 + dataLen, ln, 4 + length);
      n, dataLen, done := rest, dataLen - 1, [ln] + done;
    }
    assert t[..n] == [] && [] + done == done;
    data := buf[4..4 + length];
    PaddedBy(data, dataLen, done);
  }

  lemma PaddedBy(data: seq<byte>, n: nat, done: seq<byte>)
    requires n <= |data| && data[n..] == done && forall k | 0 <= k < n :: data[k] == NUL
    ensures data == PadLeft(|data|, done)
  {
    assert data[..n] == seq(n, _ => NUL) && data == data[..n] + data[n..];
  }

  method Store(buf: array<byte>, k: nat, b: byte, ghost end: nat)
    requires k < end <= buf.Length
    modifies buf
    ensures buf[k..end] == [b] + old(buf[k + 1..end])
    ensures forall j | 0 <= j < k :: buf[j] == old(buf[j])
  {
    buf[k] := b;
  }

  lemma FromHexEnd(t: seq<byte>)
    requires t != []
    ensures FromHex(t) == if |t| == 1 then FromHex([]) + [A2h(t[0])]
                          else FromHex(t[..|t| - 2]) + [Join2(A2h(t[|t| - 2]), A2h(t[|t| - 1]))]
  {
    hide A2h, Join2;
  }

  /** The checks at the end of a field. */
  method FieldEnd(e: Entry, first: bool, p: Parse) returns (q: Parse)
    requires e.length < 256 && !p.err && !p.quit
    ensures q == EndField(e, first, p)
  {
    hide ScanDec, VersionOk;
    var parseError, quit, data := false, false, p.data;
    match p.fields {
      case 0 =>
        if |p.token| == 2 {
          parseError := p.token != e.key;
        } else {
          quit := true;
        }
      case 1 => parseError := ScanDec(p.token) != Some(e.length);
      case 2 => parseError := p.token != [e.mode];
      case 3 =>
        parseError := true;
        if e.mode == ASCII {
          if |p.token| <= e.length {
            data := Pad(e.length, p.token);
            parseError := false;
          }
        } else if e.mode == HEX {
          if |p.token| <= 2 * e.length {
            var d := ConvertHex(p.token, e.length);
            parseError := first && !VersionOk(d + [NUL, NUL]);
            if !parseError {
              data := d;
            }
          }
        }
      case _ =>
    }
    q := p.(err := parseError);
    if !parseError {
      q := p.(token := [], fields := p.fields + 1, quit := quit, data := data);
    }
  }

  /** The character loop over one line, up to and with its terminating zero. */
  method ReadLine(e: Entry, first: bool, line: seq<byte>) returns (r: LineResult)
    requires e.length < 256
    ensures r == ParseLine(e, first, line)
  {
    hide EndField, Record;
    var s := line + [NUL];
    var p := Parse([], 0, false, false, []);
    assert s[0..] == s;
    for i := 0 to |s|
      invariant Chars(e, first, Parse([], 0, false, false, []), s) == Chars(e, first, p, s[i..])
    {
      assert s[i..][1..] == s[i + 1..];
      if p.err || p.quit {
      } else if s[i] == COMMA || s[i] == NUL {
        p := FieldEnd(e, first, p);
      } else if s[i] == QUOTE {
      } else {
        p := p.(token := p.token + [s[i]]);
      }
    }
    if p.err {
      return Bad;
    }
    if p.fields < 4 {
      return Skip;
    }
    return Good(Record(e, p.data));
  }

  /** csv_2_bin, without the checksum it finds in the text. */
  method Csv2Bin(table: seq<Entry>, text: seq<byte>, lut: Crc.CrcTable)
    returns (ok: bool, buffer: seq<byte>, crc32: bv32)
    requires lut.Ready() && Readable(table, true, text) && forall i | 0 <= i < |table| :: table[i].length < 256
    ensures (ok, buffer) == ReadAll(table, true, text, [])
    ensures crc32 == Crc.Crc(lut.poly, 0xffff_ffff, buffer)
    ensures lut.poly == Crc.VPD_POLYNOMIAL ==> crc32 == Crc.Crc(0x04c1_1db7, 0xffff_ffff, buffer)
  {
    hide ParseLine, Fgets, Crc.Crc;
    buffer, crc32 := [], SEED;
    Crc.NothingToDivide(lut.poly, SEED);
    var rest, line := text, 0;
    assert table[0..] == table;
    while rest != []
      invariant line <= |table| && Readable(table[line..], line == 0, rest)
      invariant ReadAll(table, true, text, []) == ReadAll(table[line..], line == 0, rest, buffer)
      invariant crc32 == Crc.Crc(lut.poly, SEED, buffer)
      decreases |rest|
    {
      var n := Fgets(rest, 0);
      assert table[line..] != [] ==> table[line..][0] == table[line] && table[line..][1..] == table[line + 1..];
      var r := ReadLine(Current(table[line..]), line == 0, rest[..n - 2]);
      rest := rest[n..];
      if r == Bad {
        return false, buffer, crc32;
      } else if r.Good? {
        Crc.CrcConcat(lut.poly, SEED, buffer, r.record);
        buffer := buffer + r.record;
        crc32 := lut.Gen(r.record, crc32);
        if |buffer| > BUFFER_SIZE {
          return false, buffer, crc32;
        }
        line := line + 1;
      }
    }
    return line == |table|, buffer, crc32;
  }
}
