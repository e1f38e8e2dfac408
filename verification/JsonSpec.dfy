/** JSON text as byte sequences: what the printer writes and what the parser reads back. A
    pointer into a zero-terminated text is the rest of the text; at its end it reads as 0. */
module JsonSpec {
  import opened Options
  import opened Sequences
  import opened Decimals

  type byte = b: int | 0 <= b < 256

  datatype Json =
    | Null
    | False
    | True
    | Number(mantissa: int, exponent: int)  // mantissa * 10^exponent
    | String(text: seq<byte>)
    | Array(items: seq<Json>)
    | Object(members: seq<Member>)

  datatype Member = Member(name: seq<byte>, value: Json)

  /** What goes wrong on an escape: the text is left at its end, a number is used that was not
      read, or more is written than the first pass counted. */
  datatype Fault = Outside | NoNumber | Overflow

  /** A parse ends at the rest of the text, or fails, or what happens is not defined. */
  datatype Parsed<T> = Parsed(value: T, rest: seq<byte>) | Failed | Undefined(fault: Fault)

  const QUOTE: byte := 34
  const PLUS: byte := 43
  const COMMA: byte := 44
  const MINUS: byte := 45
  const POINT: byte := 46
  const ZERO: byte := 48
  const NINE: byte := 57
  const COLON: byte := 58
  const UPPER_E: byte := 69
  const OPEN_BRACKET: byte := 91
  const BACKSLASH: byte := 92
  const CLOSE_BRACKET: byte := 93
  const LOWER_E: byte := 101
  const LOWER_U: byte := 117
  const OPEN_BRACE: byte := 123
  const CLOSE_BRACE: byte := 125
  const SPACE: byte := 32
  const NEWLINE: byte := 10
  const TAB: byte := 9
  const NULL_TEXT: seq<byte> := [110, 117, 108, 108]
  const FALSE_TEXT: seq<byte> := [102, 97, 108, 115, 101]
  const TRUE_TEXT: seq<byte> := [116, 114, 117, 101]

  /** What a pointer to the text reads. */
  function First(s: seq<byte>): byte {
    if s == [] then 0 else s[0]
  }

  predicate NulFree(s: seq<byte>) {
    0 !in s
  }

  // ----- white space -----------------------------------------------------------------------

  /** skip: past control characters and blanks. */
  function Skip(s: seq<byte>): (r: seq<byte>)
    ensures |r| <= |s|
  {
    if s != [] && 0 < s[0] <= 32 then Skip(s[1..]) else s
  }

  predicate Blank(s: seq<byte>) {
    forall i :: 0 <= i < |s| ==> 0 < s[i] <= 32
  }

  lemma {:induction false} SkipBlanks(w: seq<byte>, s: seq<byte>)
    requires Blank(w) && (s == [] || First(s) > 32)
    ensures Skip(w + s) == s
  {
    if w == [] {
      assert w + s == s;
    } else {
      assert (w + s)[1..] == w[1..] + s;
      SkipBlanks(w[1..], s);
    }
  }

  // ----- numbers ---------------------------------------------------------------------------

  predicate IsDigit(c: byte) {
    ZERO <= c <= NINE
  }

  /** %d of a natural number. */
  function Decimal(n: nat): (s: seq<byte>)
    ensures |s| == Figures(n) > 0 && forall i :: 0 <= i < |s| ==> IsDigit(s[i])
    ensures n > 0 ==> s[0] != ZERO
  {
    if n < 10 then [(48 + n) as byte] else Decimal(n / 10) + [(48 + n % 10) as byte]
  }

  function PrintInt(n: int): seq<byte> {
    if n < 0 then [MINUS] + Decimal(-n) else Decimal(n)
  }

  /** Read digits on to the number n: the number, how many digits, and the rest. */
  function Digits(n: nat, s: seq<byte>): (r: (nat, nat, seq<byte>))
    ensures r.1 + |r.2| == |s|
    decreases |s|
  {
    if !IsDigit(First(s)) then (n, 0, s)
    else var (m, k, rest) := Digits(n * 10 + (s[0] as int - 48), s[1..]); (m, k + 1, rest)
  }

  function Fraction(n: nat, s: seq<byte>): (r: (nat, nat, seq<byte>))
    ensures |r.2| <= |s|
  {
    if First(s) == POINT && IsDigit(First(s[1..])) then Digits(n, s[1..]) else (n, 0, s)
  }

  function Exponent(s: seq<byte>): (r: (int, seq<byte>))
    ensures |r.1| <= |s|
  {
    if First(s) != LOWER_E && First(s) != UPPER_E then (0, s)
    else if First(s[1..]) == 43 then (Digits(0, s[2..]).0, Digits(0, s[2..]).2)
    else if First(s[1..]) == MINUS then (0 - Digits(0, s[2..]).0, Digits(0, s[2..]).2)
    else (Digits(0, s[1..]).0, Digits(0, s[1..]).2)
  }

  function ParseNumber(s: seq<byte>): (r: Parsed<Json>)
    requires First(s) == MINUS || IsDigit(First(s))
    ensures r.Parsed? && |r.rest| < |s|
  {
    var sign := if First(s) == MINUS then -1 else 1;
    var s1 := if First(s) == MINUS then s[1..] else s;
    var s2 := if First(s1) == ZERO then s1[1..] else s1;
    var (n, k, s3) := if IsDigit(First(s2)) && First(s2) != ZERO then Digits(0, s2) else (0, 0, s2);
    var (m, scale, s4) := Fraction(n, s3);
    var (e, s5) := Exponent(s4);
    Parsed(Number(sign * m, e - scale), s5)
  }

  /** What may follow a number without being read as part of it. */
  predicate EndsNumber(s: seq<byte>) {
    !IsDigit(First(s)) && First(s) != POINT && First(s) != LOWER_E && First(s) != UPPER_E
  }

  lemma {:induction false} DigitsOfDecimal(n: nat, rest: seq<byte>)
    requires !IsDigit(First(rest))
    ensures Digits(0, Decimal(n) + rest) == (n, |Decimal(n)|, rest)
  {
    DigitsAppend(0, n, rest);
  }

  /** Reading the digits of n and then more text is reading more text on to n. */
  lemma {:induction false} DigitsAppend(zero: nat, n: nat, t: seq<byte>)
    requires zero == 0
    ensures Digits(0, Decimal(n) + t) == (Digits(n, t).0, |Decimal(n)| + Digits(n, t).1, Digits(n, t).2)
    decreases n
  {
    if n < 10 {
      assert (Decimal(n) + t)[1..] == t;
    } else {
      var c: seq<byte> := [(48 + n % 10) as byte];
      assert Decimal(n) + t == Decimal(n / 10) + (c + t);
      DigitsAppend(0, n / 10, c + t);
      assert (c + t)[1..] == t;
    }
  }

  /** The first digit of a number is 0 for 0 only. */
  lemma DecimalFirst(n: nat, rest: seq<byte>)
    ensures IsDigit(First(Decimal(n) + rest)) && (First(Decimal(n) + rest) == ZERO <==> n == 0)
    ensures n == 0 ==> (Decimal(n) + rest)[1..] == rest
  {}

  /** A printed integer reads back as itself. */
  lemma NumberRoundTrip(n: int, rest: seq<byte>)
    requires EndsNumber(rest)
    ensures ParseNumber(PrintInt(n) + rest) == Parsed(Number(n, 0), rest)
  {
    var m := if n < 0 then -n else n;
    DigitsOfDecimal(m, rest);
    DecimalFirst(m, rest);
    hide Decimal, Digits;
    if n < 0 {
      assert (PrintInt(n) + rest)[1..] == Decimal(m) + rest;
    }
  }

  // ----- strings ---------------------------------------------------------------------------

  function HexDigit(d: nat): byte
    requires d < 16
  {
    if d < 10 then 48 + d else 87 + d
  }

  predicate IsHex(c: byte) {
    IsDigit(c) || 65 <= c <= 70 || 97 <= c <= 102
  }

  function HexValue(c: byte): nat
    requires IsHex(c)
  {
    if c <= NINE then c - 48 else if c <= 70 then c - 55 else c - 87
  }

  /** The letter that stands for c after a backslash, or 0. */
  function EscapeLetter(c: byte): byte {
    if c == BACKSLASH || c == QUOTE then c
    else if c == 8 then 98 else if c == 12 then 102 else if c == 10 then 110
    else if c == 13 then 114 else if c == 9 then 116 else 0
  }

  function Escape(c: byte): (r: seq<byte>)
    ensures 1 <= |r| <= 6
  {
    if c > 31 && c != QUOTE && c != BACKSLASH then [c]
    else if EscapeLetter(c) != 0 then [BACKSLASH, EscapeLetter(c)]
    else [BACKSLASH, LOWER_U, ZERO, ZERO, HexDigit(c / 16), HexDigit(c % 16)]
  }

  function EscapeAll(s: seq<byte>): seq<byte> {
    if s == [] then [] else Escape(s[0]) + EscapeAll(s[1..])
  }

  /** print_string_ptr. */
  function Quote(s: seq<byte>): seq<byte> {
    [QUOTE] + EscapeAll(s) + [QUOTE]
  }

  /** UTF-8 of a code point (section 3 of RFC 3629), and what the same shifts and masks make of
      the numbers beyond. */
  function Utf8(c: nat): (r: seq<byte>)
    requires c < 0x1_0000_0000
    ensures 1 <= |r| <= 4
  {
    if c < 0x80 then [c]
    else if c < 0x800 then [0xC0 + c / 0x40, 0x80 + c % 0x40]
    else if c < 0x1_0000 then [0xE0 + c / 0x1000, 0x80 + c / 0x40 % 0x40, 0x80 + c % 0x40]
    else [0xF0 + c / 0x4_0000 % 0x10, 0x80 + c / 0x1000 % 0x40, 0x80 + c / 0x40 % 0x40, 0x80 + c % 0x40]
  }

  predicate IsSpace(c: byte) {
    c == SPACE || 9 <= c <= 13
  }

  function SkipSpace(s: seq<byte>): (r: seq<byte>)
    ensures |r| <= |s|
  {
    if s != [] && IsSpace(s[0]) then SkipSpace(s[1..]) else s
  }

  /** Up to w hex digits read on to the number n, and how many there were. */
  function HexRun(n: nat, s: seq<byte>, w: nat): (r: (nat, nat))
    ensures r.1 <= w
    decreases w
  {
    if w == 0 || s == [] || !IsHex(s[0]) then (n, 0)
    else
      var r := HexRun(16 * n + HexValue(s[0]), s[1..], w - 1);
      (r.0, r.1 + 1)
  }

  /** A hex number of at most w characters, possibly after 0x. */
  function HexNumber(s: seq<byte>, w: nat): (r: Option<nat>)
    requires w >= 2
  {
    var r := if First(s) == ZERO && |s| >= 2 && (s[1] == 120 || s[1] == 88) then HexRun(0, s[2..], w - 2)
      else HexRun(0, s, w);
    if r.1 == 0 then None else Some(r.0)
  }

  /** sscanf with %4x into an unsigned number: white space, then up to four characters of a
      number with an optional sign. Nothing is stored if there is no digit. */
  function ReadHex(s: seq<byte>): (r: Option<nat>)
    ensures r.Some? ==> r.value < 0x1_0000_0000
  {
    var t := SkipSpace(s);
    HexBounds(t);
    if First(t) == MINUS then
      match HexNumber(t[1..], 3)
      case Some(v) => Some((0x1_0000_0000 - v) % 0x1_0000_0000)
      case None => None
    else HexNumber(if First(t) == PLUS then t[1..] else t, if First(t) == PLUS then 3 else 4)
  }

  lemma {:induction false} HexRunBound(n: nat, s: seq<byte>, w: nat, bound: nat)
    requires n < bound
    ensures HexRun(n, s, w).0 < bound * Power16(w)
    decreases w
  {
    if w > 0 && s != [] && IsHex(s[0]) {
      HexRunBound(16 * n + HexValue(s[0]), s[1..], w - 1, 16 * bound);
      hide HexValue, IsHex;
      var p := Power16(w - 1);
      assert bound * (16 * p) == 16 * bound * p;
    } else {
      Power16AtLeast(w, bound);
    }
  }

  function Power16(w: nat): nat {
    if w == 0 then 1 else 16 * Power16(w - 1)
  }

  lemma Power16AtLeast(w: nat, bound: nat)
    ensures bound <= bound * Power16(w)
  {
    if w > 0 { Power16AtLeast(w - 1, bound); }
  }

  lemma HexBounds(t: seq<byte>)
    ensures t != [] && HexNumber(t[1..], 3).Some? ==> HexNumber(t[1..], 3).value < 0x1000
    ensures HexNumber(t, 4).Some? ==> HexNumber(t, 4).value < 0x1_0000
  {
    assert Power16(1) == 16 && Power16(2) == 0x100 && Power16(3) == 0x1000 && Power16(4) == 0x1_0000;
    HexRunBound(0, t, 4, 1);
    if t != [] { HexRunBound(0, t[1..], 3, 1); }
    if |t| >= 2 { HexRunBound(0, t[2..], 2, 1); }
    if |t| >= 3 { HexRunBound(0, t[1..][2..], 1, 1); }
  }

  /** Four hex digits at the front of the text. */
  predicate HasHex4(s: seq<byte>) {
    |s| >= 4 && IsHex(s[0]) && IsHex(s[1]) && IsHex(s[2]) && IsHex(s[3])
  }

  function Hex4(s: seq<byte>): (r: nat)
    requires HasHex4(s)
    ensures r < 0x1_0000
  {
    HexValue(s[0]) * 0x1000 + HexValue(s[1]) * 0x100 + HexValue(s[2]) * 0x10 + HexValue(s[3])
  }

  predicate HighSurrogate(u: nat) {
    0xD800 <= u <= 0xDBFF
  }

  predicate LowSurrogate(u: nat) {
    0xDC00 <= u <= 0xDFFF
  }

  function SurrogatePair(hi: nat, lo: nat): (r: nat)
    requires HighSurrogate(hi) && LowSurrogate(lo)
    ensures 0x1_0000 <= r < 0x11_0000
  {
    0x1_0000 + (hi - 0xD800) * 0x400 + (lo - 0xDC00)
  }

  /** The text after a backslash and u: the bytes the escape stands for, and the rest. Four
      characters are passed over whatever has been read. */
  function UnescapeU(s: seq<byte>): (r: Parsed<seq<byte>>)
    ensures !r.Failed? && (r.Parsed? ==> |r.rest| < |s|)
  {
    if |s| < 4 then Undefined(Outside)
    else match ReadHex(s)
      case None => Undefined(NoNumber)
      case Some(u) =>
        if LowSurrogate(u) || u == 0 then Parsed([], s[4..])
        else if !HighSurrogate(u) then Parsed(Utf8(u), s[4..])
        else if First(s[4..]) != BACKSLASH || First(s[5..]) != LOWER_U then Parsed([], s[4..])
        else if |s| < 10 then Undefined(Outside)
        else match ReadHex(s[6..])
          case None => Undefined(NoNumber)
          case Some(lo) => Parsed(if LowSurrogate(lo) then Utf8(SurrogatePair(u, lo)) else [], s[10..])
  }

  /** The text after a backslash. */
  function Unescape(s: seq<byte>): (r: Parsed<seq<byte>>)
    ensures !r.Failed? && (r.Parsed? ==> |r.rest| < |s|)
  {
    if s == [] then Undefined(Outside)
    else if s[0] == 98 then Parsed([8], s[1..])
    else if s[0] == 102 then Parsed([12], s[1..])
    else if s[0] == 110 then Parsed([10], s[1..])
    else if s[0] == 114 then Parsed([13], s[1..])
    else if s[0] == 116 then Parsed([9], s[1..])
    else if s[0] == LOWER_U then UnescapeU(s[1..])
    else Parsed([s[0]], s[1..])
  }

  /** The first pass of parse_string counts the characters up to the closing quote, each escaped
      one once. */
  function BodyCount(s: seq<byte>): nat
    decreases |s|
  {
    if s == [] || s[0] == QUOTE then 0
    else if s[0] == BACKSLASH && |s| >= 2 then 1 + BodyCount(s[2..])
    else 1 + BodyCount(s[1..])
  }

  /** It leaves the text if the last character it comes to is a backslash. */
  predicate CountsInside(s: seq<byte>)
    decreases |s|
  {
    if s == [] || s[0] == QUOTE then true
    else if s[0] == BACKSLASH then |s| >= 2 && CountsInside(s[2..])
    else CountsInside(s[1..])
  }

  /** The text after the opening quote. An unterminated string ends with the text. */
  function ParseBody(s: seq<byte>): (r: Parsed<seq<byte>>)
    ensures !r.Failed? && (r.Parsed? ==> |r.rest| <= |s|)
    decreases |s|
  {
    if s == [] then Parsed([], s)
    else if s[0] == QUOTE then Parsed([], s[1..])
    else if s[0] != BACKSLASH then Prepend([s[0]], ParseBody(s[1..]))
    else match Unescape(s[1..])
      case Parsed(bytes, rest) => Prepend(bytes, ParseBody(rest))
      case Failed => Failed
      case Undefined(fault) => Undefined(fault)
  }

  function Prepend(bytes: seq<byte>, r: Parsed<seq<byte>>): Parsed<seq<byte>> {
    if r.Parsed? then Parsed(bytes + r.value, r.rest) else r
  }

  function ParseString(s: seq<byte>): (r: Parsed<seq<byte>>)
    ensures r.Parsed? ==> |r.rest| < |s|
  {
    if First(s) != QUOTE then Failed
    else if !CountsInside(s[1..]) then Undefined(Outside)
    else
      var r := ParseBody(s[1..]);
      if r.Parsed? && |r.value| > BodyCount(s[1..]) then Undefined(Overflow) else r
  }

  /** Four hex digits are read as they stand. */
  lemma FourDigits(h: seq<byte>)
    requires HasHex4(h)
    ensures ReadHex(h) == Some(Hex4(h))
  {
    var h1, h2, h3 := h[1..], h[2..], h[3..];
    assert h1[1..] == h2 && h2[1..] == h3;
    var a, b, c, d := HexValue(h[0]), HexValue(h[1]), HexValue(h[2]), HexValue(h[3]);
    assert HexRun(((16 * a + b) * 16) + c, h3, 1) == (16 * ((16 * a + b) * 16 + c) + d, 1);
    assert HexRun(16 * a + b, h2, 2) == (16 * ((16 * a + b) * 16 + c) + d, 2);
    assert HexRun(a, h1, 3) == (16 * ((16 * a + b) * 16 + c) + d, 3);
    assert HexRun(0, h, 4) == (16 * ((16 * a + b) * 16 + c) + d, 4);
  }

  /** A control character is printed with four hex digits. */
  lemma ControlRoundTrip(c: byte, rest: seq<byte>)
    requires 0 < c <= 31 && EscapeLetter(c) == 0
    ensures |Escape(c)| == 6 && Escape(c)[0] == BACKSLASH
    ensures Unescape((Escape(c) + rest)[1..]) == Parsed([c], rest)
  {
    var s := Escape(c) + rest;
    var h := s[2..];
    assert s[1..][1..] == h;
    assert h[0] == ZERO && h[1] == ZERO && h[2] == HexDigit(c / 16) && h[3] == HexDigit(c % 16);
    assert HasHex4(h) && Hex4(h) == c;
    FourDigits(h);
    assert h[4..] == rest;
    hide HasHex4, Hex4, ReadHex, Escape;
  }

  lemma EscapeRoundTrip(c: byte, rest: seq<byte>)
    requires c != 0
    ensures ParseBody(Escape(c) + rest) == Prepend([c], ParseBody(rest))
  {
    hide UnescapeU;
    var s := Escape(c) + rest;
    if c > 31 && c != QUOTE && c != BACKSLASH {
      assert s[1..] == rest;
    } else if EscapeLetter(c) != 0 {
      assert s[1..][1..] == rest;
    } else {
      ControlRoundTrip(c, rest);
      hide Escape, Unescape;
    }
  }

  lemma {:induction false} BodyRoundTrip(s: seq<byte>, rest: seq<byte>)
    requires NulFree(s)
    ensures ParseBody(EscapeAll(s) + [QUOTE] + rest) == Parsed(s, rest)
  {
    if s == [] {
      assert (EscapeAll(s) + [QUOTE] + rest)[1..] == rest;
    } else {
      var tail := EscapeAll(s[1..]) + [QUOTE] + rest;
      assert EscapeAll(s) + [QUOTE] + rest == Escape(s[0]) + tail;
      BodyRoundTrip(s[1..], rest);
      EscapeRoundTrip(s[0], tail);
      assert s == [s[0]] + s[1..];
    }
  }

  /** A printed string is counted to its end, with room for all its characters. */
  lemma {:induction false} EscapedCounts(s: seq<byte>, rest: seq<byte>)
    requires NulFree(s)
    ensures var t := EscapeAll(s) + [QUOTE] + rest; CountsInside(t) && BodyCount(t) >= |s|
  {
    if s != [] {
      var tail := EscapeAll(s[1..]) + [QUOTE] + rest;
      var t := EscapeAll(s) + [QUOTE] + rest;
      assert t == Escape(s[0]) + tail;
      EscapedCounts(s[1..], rest);
      if |Escape(s[0])| == 1 {
        assert t[1..] == tail;
      } else if |Escape(s[0])| == 2 {
        assert t[2..] == tail;
      } else {
        var h := t[2..];
        assert h[1..] == t[3..] && t[3..][1..] == t[4..] && t[4..][1..] == t[5..] && t[5..][1..] == tail;
        assert BodyCount(h) == 1 + BodyCount(t[3..]) && BodyCount(t[3..]) == 1 + BodyCount(t[4..]);
        assert CountsInside(h) == CountsInside(t[3..]) == CountsInside(t[4..]) == CountsInside(t[5..]) ==
          CountsInside(tail);
      }
    }
  }

  /** A printed string reads back as itself. */
  lemma StringRoundTrip(s: seq<byte>, rest: seq<byte>)
    requires NulFree(s)
    ensures ParseString(Quote(s) + rest) == Parsed(s, rest)
  {
    BodyRoundTrip(s, rest);
    EscapedCounts(s, rest);
    assert (Quote(s) + rest)[1..] == EscapeAll(s) + [QUOTE] + rest;
  }

  // ----- trees -----------------------------------------------------------------------------

  function Tabs(n: int): (t: seq<byte>)
    ensures Blank(t) && |t| == if n < 0 then 0 else n
  {
    if n <= 0 then [] else [TAB] + Tabs(n - 1)
  }

  function Indent(n: int, fmt: bool): (t: seq<byte>)
    ensures Blank(t) && |t| == if n < 0 || !fmt then 0 else n
  {
    if fmt then Tabs(n) else []
  }

  function NewLine(fmt: bool): (t: seq<byte>)
    ensures Blank(t)
  {
    if fmt then [NEWLINE] else []
  }

  /** print_value, with or without formatting. */
  function Print(j: Json, depth: nat, fmt: bool): seq<byte>
    decreases j
  {
    match j
    case Null => NULL_TEXT
    case False => FALSE_TEXT
    case True => TRUE_TEXT
    case Number(m, _) => PrintInt(m)
    case String(t) => Quote(t)
    case Array(items) => [OPEN_BRACKET] + PrintItems(items, depth, fmt) + [CLOSE_BRACKET]
    case Object(members) =>
      if members == [] then [OPEN_BRACE] + NewLine(fmt) + Indent(depth - 1, fmt) + [CLOSE_BRACE]
      else [OPEN_BRACE] + NewLine(fmt) + PrintMembers(members, depth + 1, fmt) + Indent(depth, fmt) + [CLOSE_BRACE]
  }

  function PrintItems(items: seq<Json>, depth: nat, fmt: bool): seq<byte>
    decreases items
  {
    if items == [] then []
    else Print(items[0], depth + 1, fmt) + Separator(|items| > 1, fmt) + PrintItems(items[1..], depth, fmt)
  }

  function Separator(more: bool, fmt: bool): seq<byte> {
    if !more then [] else if fmt then [COMMA, SPACE] else [COMMA]
  }

  function PrintMembers(members: seq<Member>, depth: nat, fmt: bool): seq<byte>
    decreases members
  {
    if members == [] then []
    else PrintMember(members[0], depth, fmt) + Terminator(|members| > 1, fmt) + PrintMembers(members[1..], depth, fmt)
  }

  function PrintMember(m: Member, depth: nat, fmt: bool): seq<byte>
    decreases m, 1
  {
    Indent(depth, fmt) + PrintPair(m, depth, fmt)
  }

  function PrintPair(m: Member, depth: nat, fmt: bool): seq<byte>
    decreases m, 0
  {
    Quote(m.name) + (if fmt then [COLON, TAB] else [COLON]) + Print(m.value, depth, fmt)
  }

  function Terminator(more: bool, fmt: bool): seq<byte> {
    (if more then [COMMA] else []) + NewLine(fmt)
  }

  /** parse_value. */
  function ParseValue(s: seq<byte>): (r: Parsed<Json>)
    ensures r.Parsed? ==> |r.rest| < |s|
    decreases |s|, 0
  {
    if NULL_TEXT <= s then Parsed(Null, s[4..])
    else if FALSE_TEXT <= s then Parsed(False, s[5..])
    else if TRUE_TEXT <= s then Parsed(True, s[4..])
    else if First(s) == QUOTE then
      match ParseString(s)
      case Parsed(t, rest) => Parsed(String(t), rest)
      case Failed => Failed
      case Undefined(fault) => Undefined(fault)
    else if First(s) == MINUS || IsDigit(First(s)) then ParseNumber(s)
    else if First(s) == OPEN_BRACKET then
      var v := Skip(s[1..]);
      if First(v) == CLOSE_BRACKET then Parsed(Array([]), v[1..])
      else match ParseItems(v)
        case Parsed(items, rest) => Parsed(Array(items), rest)
        case Failed => Failed
        case Undefined(fault) => Undefined(fault)
    else if First(s) == OPEN_BRACE then
      var v := Skip(s[1..]);
      if First(v) == CLOSE_BRACE then Parsed(Object([]), v[1..])
      else match ParseMembers(v)
        case Parsed(members, rest) => Parsed(Object(members), rest)
        case Failed => Failed
        case Undefined(fault) => Undefined(fault)
    else Failed
  }

  /** The items of an array, up to and including the closing bracket. */
  function ParseItems(s: seq<byte>): (r: Parsed<seq<Json>>)
    ensures r.Parsed? ==> |r.rest| < |s|
    decreases |s|, 1
  {
    match ParseValue(Skip(s))
    case Failed => Failed
    case Undefined(fault) => Undefined(fault)
    case Parsed(x, rest) =>
      var v := Skip(rest);
      if First(v) == COMMA then
        match ParseItems(v[1..])
        case Parsed(xs, end) => Parsed([x] + xs, end)
        case Failed => Failed
        case Undefined(fault) => Undefined(fault)
      else if First(v) == CLOSE_BRACKET then Parsed([x], v[1..])
      else Failed
  }

  /** A name, a colon and a value. */
  function ParseMember(s: seq<byte>): (r: Parsed<Member>)
    ensures r.Parsed? ==> |r.rest| < |s|
    decreases |s|, 0
  {
    match ParseString(s)
    case Failed => Failed
    case Undefined(fault) => Undefined(fault)
    case Parsed(name, rest) =>
      var v := Skip(rest);
      if First(v) != COLON then Failed
      else match ParseValue(Skip(v[1..]))
        case Parsed(x, end) => Parsed(Member(name, x), end)
        case Failed => Failed
        case Undefined(fault) => Undefined(fault)
  }

  /** The members of an object, up to and including the closing brace. */
  function ParseMembers(s: seq<byte>): (r: Parsed<seq<Member>>)
    ensures r.Parsed? ==> |r.rest| < |s|
    decreases |s|, 1
  {
    match ParseMember(Skip(s))
    case Failed => Failed
    case Undefined(fault) => Undefined(fault)
    case Parsed(m, rest) =>
      var v := Skip(rest);
      if First(v) == COMMA then
        match ParseMembers(v[1..])
        case Parsed(ms, end) => Parsed([m] + ms, end)
        case Failed => Failed
        case Undefined(fault) => Undefined(fault)
      else if First(v) == CLOSE_BRACE then Parsed([m], v[1..])
      else Failed
  }

  /** cJSON_ParseWithOpts without the check for trailing text. */
  function Parse(s: seq<byte>): Parsed<Json> {
    ParseValue(Skip(s))
  }

  /** A tree the printer can show exactly: integers of 32 bits, text without zero bytes. */
  predicate Printable(j: Json)
    decreases j
  {
    match j
    case Number(m, e) => e == 0 && -0x8000_0000 <= m < 0x8000_0000
    case String(t) => NulFree(t)
    case Array(items) => forall i :: 0 <= i < |items| ==> Printable(items[i])
    case Object(members) => forall i :: 0 <= i < |members| ==> NulFree(members[i].name) && Printable(members[i].value)
    case _ => true
  }

  // ----- round trip ------------------------------------------------------------------------

  lemma PrintStarts(j: Json, depth: nat, fmt: bool)
    ensures Print(j, depth, fmt) != [] && First(Print(j, depth, fmt)) > 32
    ensures First(Print(j, depth, fmt)) != CLOSE_BRACKET
  {}

  /** Text that may follow a value: it does not continue a number. */
  lemma {:induction false} ValueRoundTrip(j: Json, depth: nat, fmt: bool, rest: seq<byte>)
    requires Printable(j) && EndsNumber(rest)
    ensures ParseValue(Print(j, depth, fmt) + rest) == Parsed(j, rest)
    decreases j, 1
  {
    var s := Print(j, depth, fmt) + rest;
    match j {
      case Null => assert s[4..] == rest;
      case False =>
        assert s[0] == 102;
        assert s[5..] == rest;
      case True =>
        assert s[0] == 116;
        assert s[4..] == rest;
      case Number(m, e) => NumberRoundTrip(m, rest);
      case String(t) => StringRoundTrip(t, rest);
      case Array(items) => ArrayRoundTrip(items, depth, fmt, rest);
      case Object(members) => ObjectRoundTrip(members, depth, fmt, rest);
    }
  }

  lemma ParseItemsSteps(s: seq<byte>, x: Json, rest: seq<byte>)
    requires ParseValue(Skip(s)) == Parsed(x, rest)
    ensures var v := Skip(rest);
      && (First(v) == CLOSE_BRACKET ==> ParseItems(s) == Parsed([x], v[1..]))
      && (First(v) == COMMA && ParseItems(v[1..]).Parsed? ==>
          ParseItems(s) == Parsed([x] + ParseItems(v[1..]).value, ParseItems(v[1..]).rest))
  {}

  lemma PrintItemsFirst(items: seq<Json>, depth: nat, fmt: bool, end: seq<byte>)
    requires items != []
    ensures PrintItems(items, depth, fmt) + end ==
      Print(items[0], depth + 1, fmt) + (Separator(|items| > 1, fmt) + (PrintItems(items[1..], depth, fmt) + end))
  {
    hide Print, Separator;
  }

  lemma Cons(c: byte, s: seq<byte>)
    ensures ([c] + s)[1..] == s && First([c] + s) == c
  {}

  lemma FirstAppend(a: seq<byte>, b: seq<byte>)
    requires a != []
    ensures First(a + b) == First(a)
  {}

  lemma OneItem(items: seq<Json>, depth: nat, fmt: bool, end: seq<byte>)
    requires |items| == 1
    ensures PrintItems(items[1..], depth, fmt) + end == end && items == [items[0]]
  {}

  lemma OneMember(members: seq<Member>, depth: nat, fmt: bool, end: seq<byte>)
    requires |members| == 1
    ensures PrintMembers(members[1..], depth, fmt) + end == end && members == [members[0]]
  {}

  /** What follows an item: nothing of it belongs to the item, and a parser skips to its next sign. */
  lemma AfterItem(more: bool, fmt: bool, tail: seq<byte>)
    requires if more then First(tail) > 32 else First(tail) == CLOSE_BRACKET
    ensures var after := Separator(more, fmt) + tail;
      && EndsNumber(after) && Skip(after) == after && after != []
      && (more ==> First(after) == COMMA && Skip(after[1..]) == tail)
      && (!more ==> after == tail)
  {
    var blank: seq<byte> := if fmt then [SPACE] else [];
    if more {
      assert (Separator(more, fmt) + tail)[1..] == blank + tail;
      SkipBlanks(blank, tail);
    } else {
      assert Separator(more, fmt) + tail == tail;
    }
  }

  lemma {:induction false} ItemsRoundTrip(items: seq<Json>, depth: nat, fmt: bool, rest: seq<byte>)
    requires items != [] && forall i :: 0 <= i < |items| ==> Printable(items[i])
    ensures var s := PrintItems(items, depth, fmt) + ([CLOSE_BRACKET] + rest);
      ParseItems(s) == Parsed(items, rest) && First(s) > 32 && First(s) != CLOSE_BRACKET
    decreases items, 1
  {
    hide *;
    var end := [CLOSE_BRACKET] + rest;
    var s := PrintItems(items, depth, fmt) + end;
    var tail := PrintItems(items[1..], depth, fmt) + end;
    var after := Separator(|items| > 1, fmt) + tail;
    Cons(CLOSE_BRACKET, rest);
    PrintItemsFirst(items, depth, fmt, end);
    PrintStarts(items[0], depth + 1, fmt);
    FirstAppend(Print(items[0], depth + 1, fmt), after);
    if |items| > 1 {
      ItemsRoundTrip(items[1..], depth, fmt, rest);
    } else {
      OneItem(items, depth, fmt, end);
    }
    AfterItem(|items| > 1, fmt, tail);
    ValueRoundTrip(items[0], depth + 1, fmt, after);
    SkipNone(s);
    ParseItemsSteps(s, items[0], after);
    if |items| > 1 {
      ParseItemsSkips(after[1..], tail);
      assert items == [items[0]] + items[1..];
    }
  }

  lemma SkipNone(s: seq<byte>)
    requires s == [] || First(s) > 32
    ensures Skip(s) == s
  {}

  lemma ParseItemsSkips(s: seq<byte>, t: seq<byte>)
    requires Skip(s) == t && (t == [] || First(t) > 32)
    ensures ParseItems(s) == ParseItems(t)
  {}

  lemma {:induction false} ArrayRoundTrip(items: seq<Json>, depth: nat, fmt: bool, rest: seq<byte>)
    requires Printable(Array(items))
    ensures ParseValue(Print(Array(items), depth, fmt) + rest) == Parsed(Array(items), rest)
    decreases items, 2
  {
    var end := [CLOSE_BRACKET] + rest;
    var body := PrintItems(items, depth, fmt) + end;
    assert Print(Array(items), depth, fmt) + rest == [OPEN_BRACKET] + body;
    Cons(OPEN_BRACKET, body);
    if items == [] {
      assert body == end;
      Cons(CLOSE_BRACKET, rest);
    } else {
      ItemsRoundTrip(items, depth, fmt, rest);
    }
    hide ParseItems, Print, PrintItems;
    SkipNone(body);
  }

  lemma ParseMembersSteps(s: seq<byte>, m: Member, rest: seq<byte>)
    requires ParseMember(Skip(s)) == Parsed(m, rest)
    ensures var v := Skip(rest);
      && (First(v) == CLOSE_BRACE ==> ParseMembers(s) == Parsed([m], v[1..]))
      && (First(v) == COMMA && ParseMembers(v[1..]).Parsed? ==>
          ParseMembers(s) == Parsed([m] + ParseMembers(v[1..]).value, ParseMembers(v[1..]).rest))
  {}

  lemma PrintMembersFirst(members: seq<Member>, depth: nat, fmt: bool, end: seq<byte>)
    requires members != []
    ensures PrintMembers(members, depth, fmt) + end ==
      Indent(depth, fmt) +
        (PrintPair(members[0], depth, fmt) +
        (Terminator(|members| > 1, fmt) + (PrintMembers(members[1..], depth, fmt) + end)))
  {
    hide PrintPair, Terminator, Indent;
  }

  lemma PrintPairParts(m: Member, depth: nat, fmt: bool, after: seq<byte>)
    ensures var tab: seq<byte> := if fmt then [TAB] else [];
      PrintPair(m, depth, fmt) + after == Quote(m.name) + ([COLON] + (tab + (Print(m.value, depth, fmt) + after)))
  {
    hide Quote, Print;
  }

  lemma ParseMemberSteps(s: seq<byte>, name: seq<byte>, rest: seq<byte>)
    requires ParseString(s) == Parsed(name, rest) && First(rest) == COLON && ParseValue(Skip(rest[1..])).Parsed?
    ensures ParseMember(s) == Parsed(Member(name, ParseValue(Skip(rest[1..])).value), ParseValue(Skip(rest[1..])).rest)
  {
    hide ParseString, ParseValue;
    SkipNone(rest);
  }

  lemma {:induction false} MemberRoundTrip(m: Member, depth: nat, fmt: bool, after: seq<byte>)
    requires NulFree(m.name) && Printable(m.value) && EndsNumber(after)
    ensures ParseMember(PrintPair(m, depth, fmt) + after) == Parsed(m, after)
    ensures First(PrintPair(m, depth, fmt) + after) == QUOTE
    decreases m, 0
  {
    var x := Print(m.value, depth, fmt) + after;
    var tab: seq<byte> := if fmt then [TAB] else [];
    var colon := [COLON] + (tab + x);
    PrintPairParts(m, depth, fmt, after);
    StringRoundTrip(m.name, colon);
    Cons(COLON, tab + x);
    PrintStarts(m.value, depth, fmt);
    SkipBlanks(tab, x);
    ValueRoundTrip(m.value, depth, fmt, after);
    ParseMemberSteps(PrintPair(m, depth, fmt) + after, m.name, colon);
    hide ParseValue, ParseMember, Print;
  }

  /** What follows a member: a parser skips to its next sign. */
  lemma AfterMember(more: bool, fmt: bool, close: seq<byte>, tail: seq<byte>, end: seq<byte>)
    requires Blank(close) && First(end) == CLOSE_BRACE && (!more ==> tail == close + end)
    ensures var after := Terminator(more, fmt) + tail;
      && EndsNumber(after)
      && (more ==> First(Skip(after)) == COMMA && Skip(after)[1..] == NewLine(fmt) + tail)
      && (!more ==> Skip(after) == end)
  {
    var after := Terminator(more, fmt) + tail;
    if more {
      assert after == [COMMA] + (NewLine(fmt) + tail);
      Cons(COMMA, NewLine(fmt) + tail);
      SkipNone(after);
    } else {
      assert after == (NewLine(fmt) + close) + end;
      SkipBlanks(NewLine(fmt) + close, end);
      assert First(after) == CLOSE_BRACE || First(after) <= 32;
    }
  }

  lemma {:induction false} MembersRoundTrip(members: seq<Member>, depth: nat, fmt: bool, w: seq<byte>,
      close: seq<byte>, rest: seq<byte>)
    requires members != [] && forall i :: 0 <= i < |members| ==> NulFree(members[i].name) && Printable(members[i].value)
    requires Blank(w) && Blank(close)
    ensures var s := w + (PrintMembers(members, depth, fmt) + (close + ([CLOSE_BRACE] + rest)));
      ParseMembers(s) == Parsed(members, rest) && First(Skip(s)) == QUOTE
    decreases members, 1
  {
    hide *;
    var end := [CLOSE_BRACE] + rest;
    var s := w + (PrintMembers(members, depth, fmt) + (close + end));
    var tail := PrintMembers(members[1..], depth, fmt) + (close + end);
    var after := Terminator(|members| > 1, fmt) + tail;
    var pair := PrintPair(members[0], depth, fmt) + after;
    PrintMembersFirst(members, depth, fmt, close + end);
    if |members| == 1 {
      OneMember(members, depth, fmt, close + end);
    }
    Cons(CLOSE_BRACE, rest);
    AfterMember(|members| > 1, fmt, close, tail, end);
    MemberRoundTrip(members[0], depth, fmt, after);
    Associative(w, Indent(depth, fmt), pair);
    BlankTwice(w, Indent(depth, fmt));
    SkipToName(w + Indent(depth, fmt), pair);
    ParseMembersSteps(s, members[0], after);
    if |members| > 1 {
      MembersRoundTrip(members[1..], depth, fmt, NewLine(fmt), close, rest);
    }
    assert members == [members[0]] + members[1..];
  }

  lemma SkipToName(w: seq<byte>, s: seq<byte>)
    requires Blank(w) && First(s) == QUOTE
    ensures Skip(w + s) == s
  {
    SkipBlanks(w, s);
  }

  lemma BlankTwice(a: seq<byte>, b: seq<byte>)
    requires Blank(a) && Blank(b)
    ensures Blank(a + b)
  {}

  lemma {:induction false} SkipTwice(s: seq<byte>)
    ensures Skip(Skip(s)) == Skip(s)
  {
    if s != [] && 0 < s[0] <= 32 {
      SkipTwice(s[1..]);
    }
  }

  lemma ParseMembersSkipped(s: seq<byte>)
    ensures ParseMembers(Skip(s)) == ParseMembers(s)
  {
    SkipTwice(s);
  }

  lemma {:induction false} ObjectRoundTrip(members: seq<Member>, depth: nat, fmt: bool, rest: seq<byte>)
    requires Printable(Object(members))
    ensures ParseValue(Print(Object(members), depth, fmt) + rest) == Parsed(Object(members), rest)
    decreases members, 2
  {
    hide *;
    if members == [] {
      EmptyObjectRoundTrip(depth, fmt, rest);
    } else {
      var body := NewLine(fmt) +
        (PrintMembers(members, depth + 1, fmt) + (Indent(depth, fmt) + ([CLOSE_BRACE] + rest)));
      PrintObject(members, depth, fmt, rest);
      PrintableMembers(members);
      MembersRoundTrip(members, depth + 1, fmt, NewLine(fmt), Indent(depth, fmt), rest);
      ParseMembersSkipped(body);
      ParseObject(body);
    }
  }

  lemma PrintableMembers(members: seq<Member>)
    requires Printable(Object(members))
    ensures forall i :: 0 <= i < |members| ==> NulFree(members[i].name) && Printable(members[i].value)
  {}

  lemma EmptyObjectRoundTrip(depth: nat, fmt: bool, rest: seq<byte>)
    ensures ParseValue(Print(Object([]), depth, fmt) + rest) == Parsed(Object([]), rest)
  {
    var end := [CLOSE_BRACE] + rest;
    Cons(CLOSE_BRACE, rest);
    var w := NewLine(fmt) + Indent(depth - 1, fmt);
    assert Print(Object([]), depth, fmt) + rest == [OPEN_BRACE] + (w + end);
    hide Print, ParseValue;
    SkipBlanks(w, end);
    ParseObject(w + end);
  }

  lemma ParseObject(body: seq<byte>)
    ensures var r, v := ParseValue([OPEN_BRACE] + body), Skip(body);
      && (First(v) == CLOSE_BRACE ==> r == Parsed(Object([]), v[1..]))
      && (First(v) == QUOTE && ParseMembers(v).Parsed? ==>
        r == Parsed(Object(ParseMembers(v).value), ParseMembers(v).rest))
  {
    hide ParseMembers, Skip;
    Cons(OPEN_BRACE, body);
    assert ([OPEN_BRACE] + body)[0] == OPEN_BRACE;
  }

  lemma PrintObject(members: seq<Member>, depth: nat, fmt: bool, rest: seq<byte>)
    requires members != []
    ensures Print(Object(members), depth, fmt) + rest ==
      [OPEN_BRACE] + (NewLine(fmt) +
        (PrintMembers(members, depth + 1, fmt) + (Indent(depth, fmt) + ([CLOSE_BRACE] + rest))))
  {
    hide PrintMembers, Indent, NewLine;
  }

  /** Parsing what either printer wrote gives the tree back and reads exactly the text written. */
  lemma PrintThenParse(j: Json, depth: nat, fmt: bool, rest: seq<byte>)
    requires Printable(j) && EndsNumber(rest)
    ensures Parse(Print(j, depth, fmt) + rest) == Parsed(j, rest)
    ensures Parse(Print(j, depth, fmt)) == Parsed(j, [])
  {
    PrintStarts(j, depth, fmt);
    ValueRoundTrip(j, depth, fmt, rest);
    ValueRoundTrip(j, depth, fmt, []);
    assert Print(j, depth, fmt) + [] == Print(j, depth, fmt);
  }

  // ----- escapes of code points ------------------------------------------------------------

  /** A code point that is a character: not half of a surrogate pair. */
  predicate Scalar(c: nat) {
    c < 0x11_0000 && !HighSurrogate(c) && !LowSurrogate(c)
  }

  function HexDigits(u: nat): (r: seq<byte>)
    requires u < 0x1_0000
    ensures |r| == 4
  {
    [HexDigit(u / 0x1000), HexDigit(u / 0x100 % 0x10), HexDigit(u / 0x10 % 0x10), HexDigit(u % 0x10)]
  }

  /** The escape of a code point (section 7 of RFC 8259): one \\u, or two for a surrogate pair. */
  function UnicodeEscape(c: nat): seq<byte>
    requires Scalar(c)
  {
    if c < 0x1_0000 then [BACKSLASH, LOWER_U] + HexDigits(c)
    else
      var d := c - 0x1_0000;
      [BACKSLASH, LOWER_U] + HexDigits(0xD800 + d / 0x400) + [BACKSLASH, LOWER_U] + HexDigits(0xDC00 + d % 0x400)
  }

  lemma HexRoundTrip(u: nat, rest: seq<byte>)
    requires u < 0x1_0000
    ensures HasHex4(HexDigits(u) + rest) && Hex4(HexDigits(u) + rest) == u && (HexDigits(u) + rest)[4..] == rest
  {
    HexDigitBack(u / 0x1000);
    HexDigitBack(u / 0x100 % 0x10);
    HexDigitBack(u / 0x10 % 0x10);
    HexDigitBack(u % 0x10);
    Nibbles(u);
    hide IsHex, HexValue, HexDigit;
    var s := HexDigits(u) + rest;
    assert s[0] == HexDigit(u / 0x1000) && s[1] == HexDigit(u / 0x100 % 0x10);
    assert s[2] == HexDigit(u / 0x10 % 0x10) && s[3] == HexDigit(u % 0x10);
    assert s[4..] == rest;
  }

  lemma HexDigitBack(d: nat)
    requires d < 16
    ensures IsHex(HexDigit(d)) && HexValue(HexDigit(d)) == d
  {}

  lemma Nibbles(u: nat)
    ensures u / 0x1000 * 0x1000 + u / 0x100 % 0x10 * 0x100 + u / 0x10 % 0x10 * 0x10 + u % 0x10 == u
  {
    var a, b, c := u / 0x1000, u / 0x100, u / 0x10;
    assert b == a * 0x10 + b % 0x10;
    assert c == b * 0x10 + c % 0x10;
    assert u == c * 0x10 + u % 0x10;
  }

  lemma FourParts(a: seq<byte>, b: seq<byte>, c: seq<byte>, d: seq<byte>, rest: seq<byte>)
    ensures (a + b + c + d) + rest == a + (b + (c + (d + rest)))
  {}

  lemma PairRoundTrip(c: nat, rest: seq<byte>)
    requires Scalar(c) && c >= 0x1_0000
    ensures ParseBody(UnicodeEscape(c) + rest) == Prepend(Utf8(c), ParseBody(rest))
  {
    var d := c - 0x1_0000;
    var hi, lo := 0xD800 + d / 0x400, 0xDC00 + d % 0x400;
    var u: seq<byte> := [BACKSLASH, LOWER_U];
    var second := HexDigits(lo) + rest;
    assert UnicodeEscape(c) == u + HexDigits(hi) + u + HexDigits(lo) && SurrogatePair(hi, lo) == c;
    hide ParseBody, UnescapeU, Utf8, HexDigits, Hex4, HasHex4, UnicodeEscape, SurrogatePair;
    FourParts(u, HexDigits(hi), u, HexDigits(lo), rest);
    HexRoundTrip(hi, u + second);
    HexRoundTrip(lo, rest);
    OpenUnicode(HexDigits(hi) + (u + second));
    PairDecodes(HexDigits(hi) + (u + second), hi, lo, rest, u + second, second);
  }

  /** Every escaped code point but zero is decoded to its UTF-8. */
  lemma UnicodeRoundTrip(c: nat, rest: seq<byte>)
    requires Scalar(c) && c != 0
    ensures ParseBody(UnicodeEscape(c) + rest) == Prepend(Utf8(c), ParseBody(rest))
  {
    hide ParseBody, UnescapeU, Utf8, HexDigits, Hex4, HasHex4;
    if c < 0x1_0000 {
      HexRoundTrip(c, rest);
      OneEscape(HexDigits(c) + rest, c, rest);
      OpenUnicode(HexDigits(c) + rest);
      assert UnicodeEscape(c) + rest == [BACKSLASH, LOWER_U] + (HexDigits(c) + rest);
    } else {
      PairRoundTrip(c, rest);
    }
  }

  lemma OneEscape(h: seq<byte>, u: nat, rest: seq<byte>)
    requires HasHex4(h) && Hex4(h) == u && u != 0 && !HighSurrogate(u) && !LowSurrogate(u) && h[4..] == rest
    ensures u < 0x1_0000 && UnescapeU(h) == Parsed(Utf8(u), rest)
  {
    hide Utf8;
    FourDigits(h);
  }

  lemma OpenUnicode(h: seq<byte>)
    ensures ParseBody([BACKSLASH, LOWER_U] + h) == match UnescapeU(h)
      case Parsed(bytes, rest) => Prepend(bytes, ParseBody(rest))
      case Failed => Failed
      case Undefined(fault) => Undefined(fault)
  {
    var s := [BACKSLASH, LOWER_U] + h;
    assert s[1..][1..] == h;
  }

  lemma PairDecodes(h: seq<byte>, hi: nat, lo: nat, rest: seq<byte>, t: seq<byte>, second: seq<byte>)
    requires HasHex4(h) && Hex4(h) == hi && HighSurrogate(hi) && h[4..] == t == [BACKSLASH, LOWER_U] + second
    requires HasHex4(second) && Hex4(second) == lo && LowSurrogate(lo) && second[4..] == rest
    ensures UnescapeU(h) == Parsed(Utf8(SurrogatePair(hi, lo)), rest)
  {
    FourDigits(h);
    FourDigits(second);
    hide Hex4, HasHex4, Utf8, SurrogatePair, ReadHex;
    HexLength(h);
    HexLength(second);
    assert t[1..] == h[5..] && t[2..] == h[6..] && second == t[2..];
    assert h[6..][4..] == h[10..];
  }

  lemma HexLength(h: seq<byte>)
    requires HasHex4(h)
    ensures |h| >= 4
  {}

  /** The six bits of a continuation byte. */
  function TailBits(b: byte): nat {
    b as int % 0x40
  }

  /** Read one code point of UTF-8 text. */
  function FromUtf8(s: seq<byte>): Option<int> {
    if s == [] then None
    else if s[0] < 0x80 then Some(s[0] as int)
    else if s[0] < 0xE0 && |s| >= 2 then Some((s[0] as int - 0xC0) * 0x40 + TailBits(s[1]))
    else if s[0] < 0xF0 && |s| >= 3 then Some((s[0] as int - 0xE0) * 0x1000 + TailBits(s[1]) * 0x40 + TailBits(s[2]))
    else if |s| >= 4 then Some((s[0] as int - 0xF0) * 0x4_0000 + TailBits(s[1]) * 0x1000 + TailBits(s[2]) * 0x40 +
      TailBits(s[3]))
    else None
  }

  lemma SixBits(n: nat)
    requires n < 0x40
    ensures TailBits(0x80 + n) == n
  {}

  /** UTF-8 loses nothing. */
  lemma Utf8RoundTrip(c: nat)
    requires c < 0x11_0000
    ensures FromUtf8(Utf8(c)) == Some(c)
  {
    hide TailBits;
    SixBits(c % 0x40);
    SixBits(c / 0x40 % 0x40);
    SixBits(c / 0x1000 % 0x40);
    Sextets(c);
  }

  lemma Sextets(c: nat)
    requires c < 0x11_0000
    ensures c == c / 0x40 * 0x40 + c % 0x40
    ensures c / 0x40 == c / 0x1000 * 0x40 + c / 0x40 % 0x40
    ensures c / 0x1000 == c / 0x4_0000 * 0x40 + c / 0x1000 % 0x40
    ensures (c < 0x800 ==> c / 0x40 < 0x20) && (c < 0x1_0000 ==> c / 0x1000 < 0x10) && c / 0x4_0000 < 8
  {
    var d, e := c / 0x40, c / 0x1000;
    assert d / 0x40 == e && e / 0x40 == c / 0x4_0000;
  }
}
