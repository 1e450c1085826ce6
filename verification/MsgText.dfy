/** The text interface: a line printed for a message, and the line read as a message. */
module MsgText {
  import opened Can

  // ---------------------------------------------------------------- numbers as text

  function HexChar(d: nat): char
    requires d < 16
  {
    if d < 10 then '0' + d as char else 'a' + (d - 10) as char
  }

  function Pow(base: nat, n: nat): nat { if n == 0 then 1 else base * Pow(base, n - 1) }

  /** Exactly `n` hexadecimal digits. */
  function Hex(v: nat, n: nat): (s: string)
    ensures |s| == n
  {
    if n == 0 then "" else Hex(v / 16, n - 1) + [HexChar(v % 16)]
  }

  function Decimal(v: nat): (s: string)
    ensures |s| > 0
  {
    (if v < 10 then "" else Decimal(v / 10)) + [HexChar(v % 10)]
  }

  /** A text set right in a field of `n` characters. */
  function Right(s: string, n: nat, fill: char): string {
    if |s| < n then seq(n - |s|, i => fill) + s else s
  }

  // ---------------------------------------------------------------- messages

  datatype Kind = CAN20 | CANFD | STATUS | OTHER

  datatype Source = BUS | CTRLR | INTERNAL | NONE

  datatype Time = NoTime | Time(sec: nat, usec: nat)

  /** The flags that show in the text; `source` is the kind of a status. */
  datatype Msg = Msg(kind: Kind, slf: bool, rtr: bool, brs: bool, ext: bool, source: Source,
                     id: Word, len: nat, data: seq<Byte>, time: Time)

  // ---------------------------------------------------------------- printing

  function Letter(m: Msg): char {
    if m.kind == STATUS then 'x'
    else if m.kind == OTHER then '?'
    else
      var c := if m.rtr then 'r' else if m.brs then 'b' else 'm';
      if m.slf then c - 0x20 as char else c
  }

  function Format(m: Msg): char {
    if m.kind == STATUS then
      match m.source case BUS => 'b' case CTRLR => 'c' case INTERNAL => 'i' case NONE => 'x'
    else if m.kind == OTHER then '?'
    else if m.ext then 'e' else 's'
  }

  function Head(m: Msg): string {
    [Letter(m), ' ', Format(m), ' '] + ("0x" + Hex(m.id, 8) + " " + (Right(Decimal(m.len), 2, ' ') + "  "))
  }

  function Value(b: Byte): string { "0x" + Hex(b, 2) + " " }

  function Values(data: seq<Byte>): string {
    if data == [] then "" else Value(data[0]) + Values(data[1..])
  }

  function TimeText(t: Time): string {
    match t
    case NoTime => ""
    case Time(sec, usec) =>
      var ms := (usec / 1000 + sec * 1000) % 0x1_0000_0000;
      " " + Right(Decimal(ms), 11, ' ') + " " + Right(Decimal(usec % 1000), 3, '0')
  }

  function Printed(m: Msg): seq<Byte>
    requires m.len <= |m.data|
  {
    if m.rtr then [] else m.data[..m.len]
  }

  function Line(m: Msg): string
    requires m.len <= |m.data|
  {
    Head(m) + (Values(Printed(m)) + (TimeText(m.time) + "\n"))
  }

  lemma {:induction false} ValuesAppend(data: seq<Byte>, b: Byte)
    ensures Values(data + [b]) == Values(data) + Value(b)
  {
    hide Value;
    if data == [] {
      assert data + [b] == [b] && Values([b]) == Value(b) + Values([]);
    } else {
      ValuesAppend(data[1..], b);
      assert (data + [b])[1..] == data[1..] + [b];
    }
  }

  /** pcan_make_output. */
  method MakeOutput(m: Msg) returns (line: string)
    requires m.len <= |m.data|
    ensures line == Line(m)
  {
    hide Head, Value, TimeText;
    var letter, format := '?', '?';
    match m.kind {
      case STATUS =>
        letter := 'x';
        format := match m.source case BUS => 'b' case CTRLR => 'c' case INTERNAL => 'i' case NONE => 'x';
      case CAN20 | CANFD =>
        if m.rtr {
          letter := 'r';
        } else if m.brs {
          letter := 'b';
        } else {
          letter := 'm';
        }
        if m.slf {
          letter := letter - 0x20 as char;
        }
        format := if m.ext then 'e' else 's';
      case OTHER =>
    }
    line := [letter, ' ', format, ' '] + ("0x" + Hex(m.id, 8) + " " + (Right(Decimal(m.len), 2, ' ') + "  "));
    HeadIs(m, letter, format);
    ghost var head := line;
    if !m.rtr {
      var i := 0;
      while i < m.len
        invariant 0 <= i <= m.len
        invariant line == head + Values(m.data[..i])
      {
        assert m.data[..i + 1] == m.data[..i] + [m.data[i]];
        ValuesAppend(m.data[..i], m.data[i]);
        line := line + Value(m.data[i]);
        i := i + 1;
      }
    }
    assert line == head + Values(Printed(m));
    line := line + TimeText(m.time);
    line := line + ['\n'];
    assert line == head + (Values(Printed(m)) + (TimeText(m.time) + "\n"));
  }

  lemma HeadIs(m: Msg, letter: char, format: char)
    requires letter == Letter(m) && format == Format(m)
    ensures Head(m) == [letter, ' ', format, ' '] + ("0x" + Hex(m.id, 8) + " " + (Right(Decimal(m.len), 2, ' ') + "  "))
  {
  }

  // ---------------------------------------------------------------- scanning

  /** The text is closed by a zero. */
  function At(s: string, p: nat): char { if p < |s| then s[p] else '\0' }

  predicate IsBlank(c: char) { c == ' ' || c == '\t' }

  predicate IsEol(c: char) { c == '\0' || c == '\n' || c == '\r' }

  function SkipBlanks(s: string, p: nat): (q: nat)
    ensures q >= p && !IsBlank(At(s, q))
    decreases |s| - p
  {
    if IsBlank(At(s, p)) then SkipBlanks(s, p + 1) else p
  }

  /** The value of a digit, 16 for other characters. */
  function DigitOf(c: char): nat {
    if '0' <= c <= '9' then (c - '0') as nat
    else if 'a' <= c <= 'f' then (c - 'a') as nat + 10
    else if 'A' <= c <= 'F' then (c - 'A') as nat + 10
    else 16
  }

  function Digits(s: string, p: nat, base: nat, acc: nat): (nat, nat)
    requires base <= 16
    decreases |s| - p
  {
    if p < |s| && DigitOf(s[p]) < base then Digits(s, p + 1, base, acc * base + DigitOf(s[p])) else (acc, p)
  }

  /** simple_strtoul of the kernel for base 0, kept in 32 bits: the value, and where the
      number ends. */
  function ScanNumber(s: string, p: nat): (nat, nat) {
    var hex := At(s, p) == '0' && (At(s, p + 1) == 'x' || At(s, p + 1) == 'X') && DigitOf(At(s, p + 2)) < 16;
    var (v, q) :=
      if hex then Digits(s, p + 2, 16, 0) else if At(s, p) == '0' then Digits(s, p, 8, 0) else Digits(s, p, 10, 0);
    (v % 0x1_0000_0000, q)
  }

  const EINVAL := -22
  const ERANGE := -34

  /** What the parser has found, and what it returns. A number that is out of range is
      rejected with the result of its scan, that is 0. */
  datatype Parsed = Parsed(err: int, fd: bool, slf: bool, rtr: bool, brs: bool, ext: bool,
                           id: nat, len: nat, data: seq<Byte>)

  const NOTHING := Parsed(EINVAL, false, false, false, false, false, 0, 0, [])

  function ParseData(s: string, p: nat, m: Parsed): Parsed
    requires |m.data| <= m.len
    decreases m.len - |m.data|
  {
    if |m.data| == m.len then m
    else
      var q := SkipBlanks(s, p);
      if IsEol(At(s, q)) then m
      else
        var (v, r) := ScanNumber(s, q);
        if r == q then m.(err := ERANGE)
        else if v > 255 then m
        else
          var b: Byte := v;
          ParseData(s, r, m.(data := m.data + [b]))
  }

  function ParseLen(s: string, p: nat, m: Parsed): Parsed {
    var q := SkipBlanks(s, p);
    if IsEol(At(s, q)) then m
    else
      var (v, r) := ScanNumber(s, q);
      if r == q then m.(err := ERANGE)
      else if v > 64 then m
      else ParseData(s, r, m.(len := v, data := []))
  }

  function ParseId(s: string, p: nat, m: Parsed): Parsed {
    var q := SkipBlanks(s, p);
    if IsEol(At(s, q)) then m
    else
      var (v, r) := ScanNumber(s, q);
      if r == q then m.(id := v, err := ERANGE)
      else if v > (if m.ext then 0x3fff_ffff else 2047) then m.(id := v, err := 0)
      else ParseLen(s, r, m.(id := v, err := 0))
  }

  function ParseFormat(s: string, p: nat, m: Parsed): Parsed {
    var q := SkipBlanks(s, p);
    if IsEol(At(s, q)) then m
    else if At(s, q) == 'e' then ParseId(s, q + 1, m.(ext := true))
    else if At(s, q) == 's' then ParseId(s, q + 1, m)
    else m
  }

  function Parse(s: string): Parsed {
    var p := SkipBlanks(s, 0);
    match At(s, p)
    case 'B' => ParseFormat(s, p + 1, NOTHING.(slf := true, brs := true, fd := true))
    case 'b' => ParseFormat(s, p + 1, NOTHING.(brs := true, fd := true))
    case 'M' => ParseFormat(s, p + 1, NOTHING.(slf := true))
    case 'm' => ParseFormat(s, p + 1, NOTHING)
    case 'R' => ParseFormat(s, p + 1, NOTHING.(slf := true, rtr := true))
    case 'r' => ParseFormat(s, p + 1, NOTHING.(rtr := true))
    case _ => NOTHING
  }

  method Skip(s: string, p: nat) returns (q: nat)
    ensures q == SkipBlanks(s, p)
  {
    q := p;
    while IsBlank(At(s, q))
      invariant SkipBlanks(s, q) == SkipBlanks(s, p)
      decreases |s| - q
    {
      q := q + 1;
    }
  }

  /** pcan_parse_input_message. */
  method ParseInputMessage(s: string) returns (m: Parsed)
    ensures m == Parse(s)
  {
    hide SkipBlanks, ScanNumber;
    m := NOTHING;
    var p := Skip(s, 0);
    match At(s, p) {
      case 'B' => m := m.(slf := true, brs := true, fd := true);
      case 'b' => m := m.(brs := true, fd := true);
      case 'M' => m := m.(slf := true);
      case 'm' =>
      case 'R' => m := m.(slf := true, rtr := true);
      case 'r' => m := m.(rtr := true);
      case _ => return;
    }
    p := Skip(s, p + 1);
    if IsEol(At(s, p)) {
      return;
    }
    match At(s, p) {
      case 'e' => m := m.(ext := true);
      case 's' =>
      case _ => return;
    }
    p := Skip(s, p + 1);
    if IsEol(At(s, p)) {
      return;
    }
    var (id, q) := ScanNumber(s, p);
    m := m.(id := id, err := 0);
    if q == p {
      m := m.(err := ERANGE);
      return;
    }
    if m.ext {
      if m.id > 0x3fff_ffff {
        return;
      }
    } else {
      if m.id > 2047 {
        return;
      }
    }
    p := Skip(s, q);
    if IsEol(At(s, p)) {
      return;
    }
    var (len, r) := ScanNumber(s, p);
    if r == p {
      m := m.(err := ERANGE);
      return;
    }
    if len > 64 {
      return;
    }
    m, p := m.(len := len, data := []), r;
    while |m.data| < len
      invariant |m.data| <= m.len == len && ParseData(s, p, m) == Parse(s)
      decreases len - |m.data|
    {
      var q := Skip(s, p);
      if IsEol(At(s, q)) {
        return;
      }
      var (v, r) := ScanNumber(s, q);
      if r == q {
        m := m.(err := ERANGE);
        return;
      }
      if v > 255 {
        return;
      }
      var b: Byte := v;
      m, p := m.(data := m.data + [b]), r;
    }
  }

  // ---------------------------------------------------------------- round trip

  predicate Reads(s: string, p: nat, t: string) {
    p + |t| <= |s| && s[p..p + |t|] == t
  }

  lemma ReadsSplit(s: string, p: nat, t: string, u: string)
    requires Reads(s, p, t + u)
    ensures Reads(s, p, t) && Reads(s, p + |t|, u)
    ensures t != "" ==> At(s, p) == t[0]
    ensures u != "" ==> At(s, p + |t|) == u[0]
  {
    var w := s[p..p + |t| + |u|];
    assert s[p..p + |t|] == w[..|t|] && s[p + |t|..p + |t| + |u|] == w[|t|..];
    if t != "" {
      assert s[p] == w[0];
    }
    if u != "" {
      assert s[p + |t|] == w[|t|];
    }
  }

  lemma DigitBack(d: nat)
    requires d < 16
    ensures DigitOf(HexChar(d)) == d && !IsBlank(HexChar(d)) && !IsEol(HexChar(d))
    ensures HexChar(d) == '0' <==> d == 0
  {
  }

  lemma {:induction false} HexReads(s: string, p: nat, v: nat, n: nat)
    requires Reads(s, p, Hex(v, n)) && v < Pow(16, n)
    ensures Digits(s, p, 16, 0) == Digits(s, p + n, 16, v)
    decreases n
  {
    if n > 0 {
      var d := v % 16;
      ReadsSplit(s, p, Hex(v / 16, n - 1), [HexChar(d)]);
      HexReads(s, p, v / 16, n - 1);
      DigitBack(d);
    }
  }

  lemma HexStarts(v: nat, n: nat)
    requires n > 0
    ensures DigitOf(Hex(v, n)[0]) < 16
  {
    if n == 1 {
      DigitBack(v % 16);
    }
  }

  /** A number with "0x", up to a blank. */
  lemma HexScans(s: string, p: nat, v: Word, n: nat)
    requires n > 0 && v < Pow(16, n) && Reads(s, p, "0x" + Hex(v, n) + " ")
    ensures ScanNumber(s, p) == (v, p + 2 + n)
    ensures At(s, p) == '0' && At(s, p + 2 + n) == ' '
  {
    hide Hex, Reads, Pow;
    ReadsSplit(s, p, "0x" + Hex(v, n), " ");
    ReadsSplit(s, p, "0x", Hex(v, n));
    assert "0x" == "0" + "x";
    ReadsSplit(s, p, "0", "x");
    HexStarts(v, n);
    HexReads(s, p + 2, v, n);
  }

  lemma ValueScans(s: string, p: nat, b: Byte)
    requires Reads(s, p, Value(b))
    ensures ScanNumber(s, p) == (b, p + 4) && At(s, p) == '0' && At(s, p + 4) == ' '
  {
    assert Pow(16, 2) == 256;
    HexScans(s, p, b, 2);
  }

  /** Blanks before another character. */
  lemma {:induction false} SkipsBlanks(s: string, p: nat, n: nat)
    requires (forall i :: p <= i < p + n ==> At(s, i) == ' ') && !IsBlank(At(s, p + n))
    ensures SkipBlanks(s, p) == p + n
    decreases n
  {
    if n > 0 {
      assert At(s, p) == ' ';
      SkipsBlanks(s, p + 1, n - 1);
    }
  }

  /** The text of a length has two characters. */
  lemma LenText(len: nat)
    requires len <= 64
    ensures Right(Decimal(len), 2, ' ') == [if len < 10 then ' ' else HexChar(len / 10), HexChar(len % 10)]
  {
    if len >= 10 {
      assert Decimal(len / 10) == [HexChar(len / 10)];
    }
  }

  lemma LastDigit(s: string, p: nat, base: nat, acc: nat, d: nat)
    requires d < base <= 16 && p < |s| && At(s, p) == HexChar(d) && At(s, p + 1) == ' '
    ensures Digits(s, p, base, acc) == (acc * base + d, p + 1)
  {
    DigitBack(d);
  }

  lemma ScanOne(s: string, p: nat, d: nat)
    requires d < 10 && p < |s| && At(s, p) == HexChar(d) && At(s, p + 1) == ' '
    ensures ScanNumber(s, p) == (d, p + 1)
  {
    DigitBack(d);
    LastDigit(s, p, 10, 0, d);
    if d == 0 {
      LastDigit(s, p, 8, 0, 0);
    }
  }

  lemma ScanTwo(s: string, p: nat, d: nat, e: nat)
    requires 0 < d < 10 && e < 10 && p + 1 < |s|
    requires At(s, p) == HexChar(d) && At(s, p + 1) == HexChar(e) && At(s, p + 2) == ' '
    ensures ScanNumber(s, p) == (10 * d + e, p + 2)
  {
    DigitBack(d);
    LastDigit(s, p + 1, 10, d, e);
  }

  lemma CharsRead(s: string, p: nat, a: char, b: char)
    requires Reads(s, p, [a, b] + "  ")
    ensures p + 3 < |s|
    ensures At(s, p) == a && At(s, p + 1) == b && At(s, p + 2) == ' ' && At(s, p + 3) == ' '
  {
    var t := s[p..p + 4];
    assert s[p] == t[0] && s[p + 1] == t[1] && s[p + 2] == t[2] && s[p + 3] == t[3];
  }

  lemma LenReads(s: string, p: nat, len: nat)
    requires len <= 64 && Reads(s, p, Right(Decimal(len), 2, ' ') + "  ")
    ensures p + 3 < |s| && At(s, p) == (if len < 10 then ' ' else HexChar(len / 10))
    ensures At(s, p + 1) == HexChar(len % 10) && At(s, p + 2) == ' ' && At(s, p + 3) == ' '
  {
    LenText(len);
    CharsRead(s, p, if len < 10 then ' ' else HexChar(len / 10), HexChar(len % 10));
  }

  lemma LenScans(s: string, p: nat, len: nat)
    requires len <= 64 && p > 0 && At(s, p - 1) == ' ' && p + 1 < |s| && At(s, p + 2) == ' '
    requires At(s, p) == (if len < 10 then ' ' else HexChar(len / 10)) && At(s, p + 1) == HexChar(len % 10)
    ensures
      var q := SkipBlanks(s, p - 1);
      !IsEol(At(s, q)) && q < p + 2 && ScanNumber(s, q) == (len, p + 2)
  {
    hide SkipBlanks, HexChar, ScanNumber, At;
    DigitBack(len % 10);
    if len < 10 {
      SkipsBlanks(s, p - 1, 2);
      ScanOne(s, p + 1, len);
    } else {
      DigitBack(len / 10);
      SkipsBlanks(s, p - 1, 1);
      ScanTwo(s, p, len / 10, len % 10);
    }
  }

  lemma LenParses(s: string, p: nat, m: Parsed, len: nat)
    requires len <= 64 && At(s, p) == ' ' && Reads(s, p + 1, Right(Decimal(len), 2, ' ') + "  ")
    ensures ParseLen(s, p, m) == ParseData(s, p + 3, m.(len := len, data := []))
  {
    hide SkipBlanks, Right, Decimal, ScanNumber, ParseData, At, Reads, HexChar;
    LenReads(s, p + 1, len);
    LenScans(s, p + 1, len);
  }

  lemma IdParses(s: string, p: nat, m: Parsed, id: Word)
    requires At(s, p) == ' ' && Reads(s, p + 1, "0x" + Hex(id, 8) + " ")
    requires id < if m.ext then 0x4000_0000 else 0x800
    ensures ParseId(s, p, m) == ParseLen(s, p + 11, m.(id := id, err := 0))
    ensures At(s, p + 11) == ' '
  {
    hide SkipBlanks, Hex, ScanNumber, ParseLen;
    assert Pow(16, 8) == 0x1_0000_0000;
    HexScans(s, p + 1, id, 8);
    SkipsBlanks(s, p, 1);
  }

  lemma FormatParses(s: string, p: nat, m: Parsed, ext: bool)
    requires !m.ext && At(s, p) == ' ' && At(s, p + 1) == if ext then 'e' else 's'
    ensures ParseFormat(s, p, m) == ParseId(s, p + 2, m.(ext := ext))
  {
    hide SkipBlanks, ParseId;
    SkipsBlanks(s, p, 1);
  }

  /** The values behind `m.data`, the first of them at `q`. */
  lemma {:induction false} ValuesParse(s: string, p: nat, q: nat, rest: seq<Byte>, m: Parsed)
    requires Reads(s, q, Values(rest)) && |m.data| + |rest| == m.len
    requires p <= q && forall i :: p <= i < q ==> At(s, i) == ' '
    ensures ParseData(s, p, m) == m.(data := m.data + rest)
    decreases |rest|
  {
    hide ScanNumber, SkipBlanks, Value, HexChar, Reads;
    if rest == [] {
      assert m.data + rest == m.data;
    } else {
      var b := rest[0];
      ReadsSplit(s, q, Value(b), Values(rest[1..]));
      ValueScans(s, q, b);
      SkipsBlanks(s, p, q - p);
      ValueLength(b);
      ValuesParse(s, q + 4, q + 5, rest[1..], m.(data := m.data + [b]));
      assert m.data + [b] + rest[1..] == m.data + rest;
    }
  }

  lemma ValueLength(b: Byte)
    ensures |Value(b)| == 5
  {
  }

  predicate Framed(m: Msg) {
    && (m.kind == CAN20 || m.kind == CANFD) && m.id < (if m.ext then 0x4000_0000 else 0x800)
    && m.len <= 64 && m.len <= |m.data|
  }

  /** What the head of a line says: `r` hides a change of the bit rate, and a CAN FD frame
      is told by that change alone. */
  function Told(m: Msg, err: int, data: seq<Byte>): Parsed {
    Parsed(err, m.brs && !m.rtr, m.slf, m.rtr, m.brs && !m.rtr, m.ext, m.id, m.len, data)
  }

  /** The head of a line of a frame, whatever comes behind it. */
  lemma HeadParses(m: Msg, tail: string)
    requires Framed(m)
    ensures
      var s := Head(m) + tail;
      At(s, 17) == ' ' && At(s, 18) == ' ' && Parse(s) == ParseData(s, 17, Told(m, 0, [])) && |Head(m)| == 19
  {
    hide At, Hex, Right, Decimal, Parse, ParseData, ParseFormat, ParseId, ParseLen, Head, Reads, SkipBlanks, IsBlank;
    hide Letter;
    var s := Head(m) + tail;
    HeadReads(m, tail);
    LenReads(s, 15, m.len);
    var start := Told(m, EINVAL, []).(ext := false, id := 0, len := 0);
    StartParses(s, m, start);
    FormatParses(s, 1, start, m.ext);
    IdParses(s, 3, start.(ext := m.ext), m.id);
    LenParses(s, 14, Told(m, 0, []).(len := 0), m.len);
  }

  lemma StartParses(s: string, m: Msg, start: Parsed)
    requires Framed(m) && At(s, 0) == Letter(m) && start == Told(m, EINVAL, []).(ext := false, id := 0, len := 0)
    ensures Parse(s) == ParseFormat(s, 1, start)
  {
    hide ParseFormat;
    SkipsBlanks(s, 0, 0);
  }

  lemma HeadReads(m: Msg, tail: string)
    requires Framed(m)
    ensures
      var s := Head(m) + tail;
      && |Head(m)| == 19
      && At(s, 0) == Letter(m) && At(s, 1) == ' ' && At(s, 2) == Format(m) && At(s, 3) == ' '
      && Reads(s, 4, "0x" + Hex(m.id, 8) + " ") && Reads(s, 15, Right(Decimal(m.len), 2, ' ') + "  ")
      && At(s, 14) == ' '
  {
    var s := Head(m) + tail;
    LenText(m.len);
    hide Letter, Format, Hex, Right, Decimal;
    var id, len := "0x" + Hex(m.id, 8) + " ", Right(Decimal(m.len), 2, ' ') + "  ";
    assert Head(m) == [Letter(m), ' ', Format(m), ' '] + (id + len);
    assert |id| == 11 && |len| == 4;
    assert s[4..15] == id && s[15..19] == len;
    assert s[14] == id[10];
  }

  lemma Between(a: string, b: string, c: string)
    ensures Reads(a + (b + c), |a|, b)
  {
    assert (a + (b + c))[|a|..|a| + |b|] == b;
  }

  /** The parser returns what was printed. */
  predicate ComesBack(m: Msg, r: Parsed) {
    && r.err == 0 && (r.fd <==> m.kind == CANFD) && r.slf == m.slf && r.rtr == m.rtr && r.brs == m.brs
    && r.ext == m.ext && r.id == m.id && r.len == m.len
  }

  /** Printed and read, with its time or without, a data frame is what it was if and only if
      it changes the bit rate exactly as a CAN FD frame; its data always come back. */
  lemma RoundTrip(m: Msg)
    requires Framed(m) && !m.rtr && m.len == |m.data|
    ensures ComesBack(m, Parse(Line(m))) <==> (m.kind == CANFD <==> m.brs)
    ensures Parse(Line(m)).data == m.data
  {
    assert m.data[..m.len] == m.data;
    FrameParses(m, TimeText(m.time) + "\n");
  }

  lemma FrameParses(m: Msg, tail: string)
    requires Framed(m) && m.len == |m.data|
    ensures Parse(Head(m) + (Values(m.data) + tail)) == Told(m, 0, m.data)
  {
    hide Head, Values, Parse, ParseData, At, Reads, Letter, Format;
    HeadParses(m, Values(m.data) + tail);
    Between(Head(m), Values(m.data), tail);
    ValuesParse(Head(m) + (Values(m.data) + tail), 17, 19, m.data, Told(m, 0, []));
  }

  predicate IsDigit(c: char) { '0' <= c <= '9' }

  /** The characters behind the head of a remote frame. */
  predicate Plain(c: char) { IsDigit(c) || c == ' ' || c == '\n' }

  ghost predicate AllPlain(s: string, p: nat) {
    forall i :: p <= i < |s| ==> Plain(s[i])
  }

  lemma {:induction false} DigitsAdvance(s: string, p: nat, base: nat, acc: nat)
    requires base <= 16
    ensures Digits(s, p, base, acc).1 >= p
    decreases |s| - p
  {
    if p < |s| && DigitOf(s[p]) < base {
      DigitsAdvance(s, p + 1, base, acc * base + DigitOf(s[p]));
    }
  }

  lemma DigitScans(s: string, p: nat)
    requires p < |s| && IsDigit(s[p]) && AllPlain(s, p)
    ensures ScanNumber(s, p).1 > p
  {
    var d := DigitOf(s[p]);
    DigitsAdvance(s, p + 1, 8, d);
    DigitsAdvance(s, p + 1, 10, d);
  }

  /** Digits and blanks are scanned without an error, whatever numbers they make. */
  lemma {:induction false} PlainData(s: string, p: nat, m: Parsed)
    requires AllPlain(s, p) && |m.data| <= m.len && m.err == 0
    ensures ParseData(s, p, m) == m.(data := ParseData(s, p, m).data)
    decreases m.len - |m.data|
  {
    hide ScanNumber, SkipBlanks;
    var q := SkipBlanks(s, p);
    if |m.data| < m.len && !IsEol(At(s, q)) {
      DigitScans(s, q);
      var (v, r) := ScanNumber(s, q);
      if v <= 255 {
        var b: Byte := v;
        PlainData(s, r, m.(data := m.data + [b]));
      }
    }
  }

  lemma {:induction false} DecimalIsPlain(v: nat)
    ensures AllPlain(Decimal(v), 0)
  {
    if v >= 10 {
      DecimalIsPlain(v / 10);
    }
  }

  lemma TimeIsPlain(t: Time)
    ensures AllPlain(TimeText(t), 0)
  {
    if t.Time? {
      DecimalIsPlain((t.usec / 1000 + t.sec * 1000) % 0x1_0000_0000);
      DecimalIsPlain(t.usec % 1000);
      hide Decimal;
    }
  }

  /** A remote frame, whose data are not printed, comes back but for its data if and only if
      it is a CAN 2.0 frame without a change of the bit rate. Its time may be taken for data. */
  lemma RemoteRoundTrip(m: Msg)
    requires Framed(m) && m.rtr
    ensures ComesBack(m, Parse(Line(m))) <==> m.kind == CAN20 && !m.brs
  {
    hide TimeText, Head, Parse, ParseData;
    var tail := TimeText(m.time) + "\n";
    var s := Head(m) + tail;
    assert Line(m) == s by {
      assert "" + tail == tail;
    }
    HeadParses(m, tail);
    TimeIsPlain(m.time);
    assert AllPlain(s, 17) by {
      forall i | 19 <= i < |s|
        ensures Plain(s[i])
      {
        assert s[i] == tail[i - 19];
      }
    }
    PlainData(s, 17, Told(m, 0, []));
  }

  /** A CAN FD frame that keeps its bit rate comes back as a CAN 2.0 frame. */
  lemma SlowFdComesBackAsCan20(m: Msg)
    requires Framed(m) && m.kind == CANFD && !m.brs && !m.rtr && m.len == |m.data|
    ensures ComesBack(m.(kind := CAN20), Parse(Line(m)))
  {
    RoundTrip(m.(kind := CAN20));
  }

  lemma {:induction false} ValuesLength(data: seq<Byte>)
    ensures |Values(data)| == 5 * |data|
  {
    if data != [] {
      ValueLength(data[0]);
      ValuesLength(data[1..]);
    }
  }

  lemma {:induction false} DecimalLength(v: nat, n: nat)
    requires n > 0 && v < Pow(10, n)
    ensures |Decimal(v)| <= n
    decreases n
  {
    if v >= 10 {
      DecimalLength(v / 10, n - 1);
    }
  }

  lemma HeadLength(m: Msg)
    requires m.len <= 64
    ensures |Head(m)| == 19
  {
    LenText(m.len);
    hide Letter, Format, Hex, Right, Decimal;
  }

  lemma TimeLength(t: Time)
    ensures |TimeText(t)| == if t.Time? then 16 else 0
  {
    if t.Time? {
      assert Pow(10, 11) == 100000000000 && Pow(10, 3) == 1000 by {
        assert Pow(10, 6) == 1000000;
      }
      DecimalLength((t.usec / 1000 + t.sec * 1000) % 0x1_0000_0000, 11);
      DecimalLength(t.usec % 1000, 3);
      hide Decimal, Pow;
    }
  }

  lemma DigitsStep(s: string, p: nat, acc: nat, d: nat)
    requires p < |s| && d < 10 && At(s, p) == HexChar(d)
    ensures Digits(s, p, 10, acc) == Digits(s, p + 1, 10, acc * 10 + d) && DigitOf(At(s, p)) < 10
  {
    DigitBack(d);
  }

  lemma DecimalIs(v: nat)
    ensures Decimal(v) == (if v < 10 then "" else Decimal(v / 10)) + [HexChar(v % 10)]
  {
  }

  lemma {:induction false} DecimalReads(s: string, p: nat, v: nat)
    requires Reads(s, p, Decimal(v))
    ensures p + |Decimal(v)| <= |s| && Digits(s, p, 10, 0) == Digits(s, p + |Decimal(v)|, 10, v)
    ensures DigitOf(At(s, p)) < 10
  {
    var d, front := v % 10, if v < 10 then "" else Decimal(v / 10);
    DecimalIs(v);
    ReadsSplit(s, p, front, [HexChar(d)]);
    hide Decimal, Digits, DigitOf, HexChar, At;
    if v >= 10 {
      DecimalReads(s, p, v / 10);
    }
    DigitsStep(s, p + |front|, v / 10, d);
  }

  lemma {:induction false} ZerosRead(s: string, p: nat, n: nat)
    requires p + n <= |s| && forall i :: p <= i < p + n ==> At(s, i) == '0'
    ensures Digits(s, p, 10, 0) == Digits(s, p + n, 10, 0)
    decreases n
  {
    if n > 0 {
      assert At(s, p) == '0';
      ZerosRead(s, p + 1, n - 1);
    }
  }

  lemma RightIs(text: string, n: nat, fill: char, k: nat)
    requires k == if |text| < n then n - |text| else 0
    ensures
      var pad: string := seq(k, i => fill);
      Right(text, n, fill) == pad + text
  {
  }

  lemma PadReads(s: string, p: nat, k: nat, fill: char, text: string)
    requires
      var pad: string := seq(k, i => fill);
      Reads(s, p, pad + text)
    ensures Reads(s, p + k, text) && forall i :: p <= i < p + k ==> At(s, i) == fill
  {
    var pad: string := seq(k, i => fill);
    ReadsSplit(s, p, pad, text);
    forall i | p <= i < p + k ensures At(s, i) == fill {
      assert s[p..p + k][i - p] == s[i];
    }
  }

  /** A number set right in blanks, behind another blank. */
  lemma FieldReads(s: string, p: nat, v: nat, n: nat)
    requires Reads(s, p, " " + Right(Decimal(v), n, ' '))
    ensures
      var end := p + 1 + |Right(Decimal(v), n, ' ')|;
      end <= |s| && Digits(s, SkipBlanks(s, p), 10, 0) == Digits(s, end, 10, v)
  {
    hide Decimal, Digits, Reads, At, Right, SkipBlanks;
    var text, k := Decimal(v), if |Decimal(v)| < n then n - |Decimal(v)| else 0;
    RightIs(text, n, ' ', k);
    ReadsSplit(s, p, " ", Right(text, n, ' '));
    PadReads(s, p + 1, k, ' ', text);
    DecimalReads(s, p + 1 + k, v);
    DigitIsNoBlank(At(s, p + 1 + k));
    SkipsBlanks(s, p, 1 + k);
  }

  lemma DigitIsNoBlank(c: char)
    requires DigitOf(c) < 10
    ensures !IsBlank(c)
  {
  }

  /** A number filled with zeroes. */
  lemma ZeroFieldReads(s: string, p: nat, v: nat, n: nat)
    requires Reads(s, p, Right(Decimal(v), n, '0'))
    ensures
      var end := p + |Right(Decimal(v), n, '0')|;
      end <= |s| && Digits(s, p, 10, 0) == Digits(s, end, 10, v)
    ensures DigitOf(At(s, p)) < 10
  {
    hide Decimal, Digits, Reads, Right;
    var text, k := Decimal(v), if |Decimal(v)| < n then n - |Decimal(v)| else 0;
    RightIs(text, n, '0', k);
    PadReads(s, p, k, '0', text);
    DecimalReads(s, p + k, v);
    if k > 0 {
      assert At(s, p) == '0';
    }
    ZerosRead(s, p, k);
  }

  /** The two numbers of a printed time are its milliseconds and the microseconds left over. */
  lemma TimeReadsBack(t: Time)
    requires t.Time? && t.usec < 1_000_000 && t.sec * 1000 + t.usec / 1000 < 0x1_0000_0000
    ensures
      var s := TimeText(t);
      var (ms, p) := Digits(s, SkipBlanks(s, 0), 10, 0);
      var (us, end) := Digits(s, SkipBlanks(s, p), 10, 0);
      ms * 1000 + us == t.sec * 1_000_000 + t.usec && us < 1000 && end == |s|
  {
    var ms, us := t.usec / 1000 + t.sec * 1000, t.usec % 1000;
    TimeTextIs(t, ms, us);
    hide Right, Decimal, TimeText, Digits, SkipBlanks;
    TwoNumbersRead(TimeText(t), ms, us);
  }

  lemma TimeTextIs(t: Time, ms: nat, us: nat)
    requires t.Time? && ms == t.usec / 1000 + t.sec * 1000 < 0x1_0000_0000 && us == t.usec % 1000
    ensures TimeText(t) == " " + Right(Decimal(ms), 11, ' ') + " " + Right(Decimal(us), 3, '0')
  {
    hide Right, Decimal;
  }

  lemma TwoNumbersRead(s: string, ms: nat, us: nat)
    requires s == " " + Right(Decimal(ms), 11, ' ') + " " + Right(Decimal(us), 3, '0')
    ensures
      var (v, p) := Digits(s, SkipBlanks(s, 0), 10, 0);
      v == ms && Digits(s, SkipBlanks(s, p), 10, 0) == (us, |s|)
  {
    hide Right, Decimal, SkipBlanks, Digits, Reads, At, IsBlank, DigitOf;
    var first, second := Right(Decimal(ms), 11, ' '), Right(Decimal(us), 3, '0');
    var p := 1 + |first|;
    assert s == (" " + first) + (" " + second);
    ReadsAll(s);
    ReadsSplit(s, 0, " " + first, " " + second);
    ReadsSplit(s, p, " ", second);
    FieldReads(s, 0, ms, 11);
    NoDigit(s, p);
    DigitsEnd(s, p, ms);
    ZeroFieldReads(s, p + 1, us, 3);
    DigitIsNoBlank(At(s, p + 1));
    SkipsBlanks(s, p, 1);
    NoDigit(s, |s|);
    DigitsEnd(s, |s|, us);
  }

  lemma NoDigit(s: string, p: nat)
    requires p >= |s| || At(s, p) == ' '
    ensures DigitOf(At(s, p)) >= 10
  {
  }

  lemma ReadsAll(s: string)
    ensures Reads(s, 0, s)
  {
    assert s[0..|s|] == s;
  }

  lemma DigitsEnd(s: string, p: nat, v: nat)
    requires DigitOf(At(s, p)) >= 10
    ensures Digits(s, p, 10, v) == (v, p)
  {
  }

  /** Hexadecimal digits may be written in capitals. */
  lemma UpperReadsAsLower(d: nat)
    requires 10 <= d < 16
    ensures DigitOf('A' + (d - 10) as char) == DigitOf(HexChar(d)) == d
  {
  }

  lemma {:induction false} ParsedDataFit(s: string, p: nat, m: Parsed)
    requires |m.data| <= m.len <= 64
    ensures
      var r := ParseData(s, p, m);
      && |r.data| <= r.len == m.len
      && r == m.(err := r.err, data := r.data) && (r.err == m.err || r.err == ERANGE)
    decreases m.len - |m.data|
  {
    hide ScanNumber, SkipBlanks;
    if |m.data| < m.len {
      var q := SkipBlanks(s, p);
      if !IsEol(At(s, q)) {
        var (v, r) := ScanNumber(s, q);
        if r != q && v <= 255 {
          var b: Byte := v;
          ParsedDataFit(s, r, m.(data := m.data + [b]));
        }
      }
    }
  }

  lemma ParsedLenFits(s: string, p: nat, m: Parsed)
    requires m.len == 0 && m.data == []
    ensures
      var r := ParseLen(s, p, m);
      && |r.data| <= r.len <= 64 && r == m.(err := r.err, len := r.len, data := r.data)
      && (r.err == m.err || r.err == ERANGE)
  {
    hide ScanNumber, SkipBlanks, ParseData;
    var q := SkipBlanks(s, p);
    if !IsEol(At(s, q)) {
      var (v, r) := ScanNumber(s, q);
      if r != q && v <= 64 {
        ParsedDataFit(s, r, m.(len := v, data := []));
      }
    }
  }

  /** What was read has at most 64 bytes and no more of them than its length says, and a length or
      data stand only behind an identifier in range. */
  predicate InRange(r: Parsed) {
    && |r.data| <= r.len <= 64 && (r.len > 0 ==> r.id <= if r.ext then 0x3fff_ffff else 0x7ff)
    && (r.err == 0 || r.err == EINVAL || r.err == ERANGE)
  }

  lemma ParsedIdFits(s: string, p: nat, m: Parsed)
    requires m.len == 0 && m.data == [] && m.err == EINVAL
    ensures InRange(ParseId(s, p, m))
  {
    hide ScanNumber, SkipBlanks, ParseLen;
    var q := SkipBlanks(s, p);
    if !IsEol(At(s, q)) {
      var (v, r) := ScanNumber(s, q);
      ParsedLenFits(s, r, m.(id := v, err := 0));
    }
  }

  lemma ParsedFormatFits(s: string, p: nat, m: Parsed)
    requires m.len == 0 && m.data == [] && m.err == EINVAL
    ensures InRange(ParseFormat(s, p, m))
  {
    hide SkipBlanks, ParseId;
    var q := SkipBlanks(s, p);
    ParsedIdFits(s, q + 1, m);
    ParsedIdFits(s, q + 1, m.(ext := true));
  }

  /** So it is for every text. */
  lemma ParsedIsInRange(s: string)
    ensures InRange(Parse(s))
  {
    hide SkipBlanks, ParseFormat;
    var p := SkipBlanks(s, 0) + 1;
    ParsedFormatFits(s, p, NOTHING);
    ParsedFormatFits(s, p, NOTHING.(slf := true));
    ParsedFormatFits(s, p, NOTHING.(rtr := true));
    ParsedFormatFits(s, p, NOTHING.(slf := true, rtr := true));
    ParsedFormatFits(s, p, NOTHING.(brs := true, fd := true));
    ParsedFormatFits(s, p, NOTHING.(slf := true, brs := true, fd := true));
  }

  /** What is not a frame is printed with its own letters, and is never read as one. */
  lemma StatusIsNotRead(m: Msg)
    requires (m.kind == STATUS || m.kind == OTHER) && m.len <= |m.data|
    ensures
      var line := Line(m);
      && |line| > 3 && line[0] == (if m.kind == STATUS then 'x' else '?') && line[1] == line[3] == ' '
      && (m.kind == STATUS ==>
            && (line[2] == 'b' <==> m.source == BUS) && (line[2] == 'c' <==> m.source == CTRLR)
            && (line[2] == 'i' <==> m.source == INTERNAL) && (line[2] == 'x' <==> m.source == NONE))
      && Parse(line) == NOTHING
  {
    hide Hex, Decimal, Right, Values, TimeText, Printed, ParseFormat;
    assert SkipBlanks(Line(m), 0) == 0;
  }

  /** The length of every line; 80 characters hold one with its time if and only if it shows
      at most 8 data bytes, and one without if and only if it shows at most 12. */
  lemma LineLength(m: Msg)
    requires m.len <= 64 && m.len <= |m.data|
    ensures |Line(m)| == 20 + 5 * |Printed(m)| + if m.time.Time? then 16 else 0
    ensures |Line(m)| <= 80 <==> |Printed(m)| <= if m.time.Time? then 8 else 12
  {
    HeadLength(m);
    ValuesLength(Printed(m));
    TimeLength(m.time);
    hide Head, Values, TimeText;
  }
}
