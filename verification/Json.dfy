/** The JSON printer and parser over character buffers: both passes of each routine, with every
    write inside the buffer the first pass asked for. */
module Json {
  import opened Decimals
  import opened JsonSpec
  import JsonSentences

  // ----- zero-terminated strings in memory -------------------------------------------------

  /** The buffer holds the text and its terminator. */
  ghost predicate Holds(a: array<byte>, text: seq<byte>)
    reads a
  {
    |text| < a.Length && a[..|text|] == text && a[|text|] == 0
  }

  /** strlen. */
  method Strlen(a: array<byte>, ghost text: seq<byte>) returns (n: nat)
    requires Holds(a, text) && NulFree(text)
    ensures n == |text|
  {
    forall k | 0 <= k < |text| ensures a[k] != 0 {
      assert text[k] == a[..|text|][k] && text[k] in text;
    }
    n := 0;
    while a[n] != 0
      invariant n <= |text|
      decreases |text| - n
    {
      n := n + 1;
    }
  }

  /** strcpy to position p of the buffer. */
  method Strcpy(out: array<byte>, p: nat, a: array<byte>, ghost text: seq<byte>)
    requires out != a && Holds(a, text) && NulFree(text) && p + |text| < out.Length
    modifies out
    ensures out[..p] == old(out[..p]) && out[p..p + |text|] == text && out[p + |text|] == 0
  {
    var n := Strlen(a, text);
    forall k | 0 <= k <= n { out[p + k] := a[k]; }
  }

  // ----- printing strings ------------------------------------------------------------------

  lemma EscapeAllFirst(s: seq<byte>)
    requires s != []
    ensures EscapeAll(s) == Escape(s[0]) + EscapeAll(s[1..])
  {}

  lemma {:induction false} EscapeAllNulFree(s: seq<byte>)
    ensures NulFree(EscapeAll(s))
  {
    if s != [] {
      EscapeAllNulFree(s[1..]);
    }
  }

  /** The first pass of print_string_ptr. */
  method EscapedLength(str: seq<byte>) returns (len: nat)
    requires NulFree(str)
    ensures len == |EscapeAll(str)|
  {
    len := 0;
    var ptr := str;
    while First(ptr) != 0
      invariant len + |EscapeAll(ptr)| == |EscapeAll(str)| && NulFree(ptr)
      decreases |ptr|
    {
      var token := First(ptr);
      len := len + 1;
      if EscapeLetter(token) != 0 {
        len := len + 1;
      } else if token < 32 {
        len := len + 5;
      }
      ptr := ptr[1..];
    }
  }

  /** Write the escape of one character; sprintf also writes a terminator after it. */
  method PutEscape(out: array<byte>, p: nat, token: byte) returns (q: nat)
    requires token != 0 && p + |Escape(token)| < out.Length
    modifies out
    ensures q == p + |Escape(token)| && out[..q] == old(out[..p]) + Escape(token)
  {
    if token > 31 && token != QUOTE && token != BACKSLASH {
      out[p] := token;
      q := p + 1;
    } else {
      out[p] := BACKSLASH;
      if EscapeLetter(token) != 0 {
        out[p + 1] := EscapeLetter(token);
        q := p + 2;
      } else {
        out[p + 1], out[p + 2], out[p + 3] := LOWER_U, ZERO, ZERO;
        out[p + 4], out[p + 5] := HexDigit(token / 16), HexDigit(token % 16);
        out[p + 6] := 0;
        q := p + 6;
      }
    }
  }

  /** print_string_ptr: the buffer of the first pass is filled exactly. */
  method PrintStringPtr(str: seq<byte>) returns (out: array<byte>)
    requires NulFree(str)
    ensures fresh(out) && out.Length == |Quote(str)| + 1 && Holds(out, Quote(str))
  {
    var len := EscapedLength(str);
    out := new byte[len + 3];
    var p: nat, ptr := 1, str;
    out[0] := QUOTE;
    while First(ptr) != 0
      invariant NulFree(ptr) && 0 < p && p + |EscapeAll(ptr)| + 2 == out.Length
      invariant out[..p] + (EscapeAll(ptr) + [QUOTE]) == Quote(str)
      decreases |ptr|
    {
      EscapeAllFirst(ptr);
      ghost var before := out[..p];
      p := PutEscape(out, p, First(ptr));
      Regroup(before, Escape(ptr[0]), EscapeAll(ptr[1..]), [QUOTE]);
      ptr := ptr[1..];
    }
    out[p] := QUOTE;
    p := p + 1;
    out[p] := 0;
    assert out[..p] == out[..p - 1] + [QUOTE];
  }

  lemma Regroup<T>(a: seq<T>, b: seq<T>, c: seq<T>, d: seq<T>)
    ensures a + ((b + c) + d) == (a + b) + (c + d)
  {}

  // ----- parsing strings -------------------------------------------------------------------

  /** The second pass at a backslash, and its escape. */
  lemma ParseBodyEscape(s: seq<byte>)
    requires s != [] && s[0] == BACKSLASH && ParseBody(s).Parsed?
    ensures |s| >= 2 && Unescape(s[1..]).Parsed?
    ensures ParseBody(s) == Prepend(Unescape(s[1..]).value, ParseBody(Unescape(s[1..]).rest))
  {
    hide UnescapeU;
  }

  /** The first pass of parse_string. */
  method CountBody(str: seq<byte>) returns (len: nat)
    requires NulFree(str) && CountsInside(str)
    ensures len == BodyCount(str)
  {
    len := 0;
    var ptr := str;
    while First(ptr) != QUOTE && First(ptr) != 0
      invariant len + BodyCount(ptr) == BodyCount(str) && NulFree(ptr) && CountsInside(ptr)
      decreases |ptr|
    {
      len := len + 1;
      var c := First(ptr);
      if c == BACKSLASH {
        assert ptr[1..][1..] == ptr[2..];
      }
      ptr := ptr[1..];
      if c == BACKSLASH {
        ptr := ptr[1..];
      }
    }
  }

  /** One continuation byte. */
  method PutTail(out: array<byte>, q: nat, uc: nat) returns (q': nat, uc': nat)
    requires 0 < q <= out.Length
    modifies out
    ensures q' == q - 1 && uc' == uc / 0x40 && out[q'] == 0x80 + uc % 0x40
    ensures forall k :: 0 <= k < out.Length && k != q' ==> out[k] == old(out[k])
  {
    q', uc' := q - 1, uc / 0x40;
    out[q'] := 0x80 + uc % 0x40;
  }

  lemma Utf8Shifts(c: nat)
    ensures c / 0x40 / 0x40 == c / 0x1000 && c / 0x1000 / 0x40 == c / 0x4_0000
  {}

  /** The UTF-8 bytes of a code point, written from the last one back. */
  method PutUtf8(out: array<byte>, p: nat, code: nat) returns (q: nat)
    requires code < 0x1_0000_0000 && p + |Utf8(code)| <= out.Length
    modifies out
    ensures q == p + |Utf8(code)| && out[..q] == old(out[..p]) + Utf8(code)
  {
    var uc := code;
    var len := if uc < 0x80 then 1 else if uc < 0x800 then 2 else if uc < 0x1_0000 then 3 else 4;
    Utf8Shifts(code);
    q := p + len;
    if len >= 4 {
      q, uc := PutTail(out, q, uc);
    }
    if len >= 3 {
      q, uc := PutTail(out, q, uc);
    }
    if len >= 2 {
      q, uc := PutTail(out, q, uc);
    }
    q := q - 1;
    out[q] := if len == 4 then 0xF0 + uc % 0x10 else uc + (if len == 3 then 0xE0 else if len == 2 then 0xC0 else 0);
    q := q + len;
  }

  /** Decode the escape that starts at ptr, just after the backslash. */
  method PutUnescaped(out: array<byte>, p: nat, str: seq<byte>) returns (q: nat, rest: seq<byte>)
    requires Unescape(str).Parsed? && p + |Unescape(str).value| <= out.Length
    modifies out
    ensures q == p + |Unescape(str).value| && out[..q] == old(out[..p]) + Unescape(str).value
      && rest == Unescape(str).rest
  {
    var ptr := str;
    q := p;
    if ptr[0] == LOWER_U {
      q, rest := PutUnicode(out, p, ptr[1..]);
    } else {
      var c := ptr[0];
      out[q] := if c == 98 then 8 else if c == 102 then 12 else if c == 110 then 10 else if c == 114 then 13
        else if c == 116 then 9 else c;
      q := q + 1;
      rest := ptr[1..];
    }
  }

  /** The ten low bits of either half. */
  lemma PairArithmetic(hi: nat, lo: nat)
    requires HighSurrogate(hi) && LowSurrogate(lo)
    ensures SurrogatePair(hi, lo) == 0x1_0000 + hi % 0x400 * 0x400 + lo % 0x400
  {}

  method PutUnicode(out: array<byte>, p: nat, str: seq<byte>) returns (q: nat, rest: seq<byte>)
    requires UnescapeU(str).Parsed? && p + |UnescapeU(str).value| <= out.Length
    modifies out
    ensures q == p + |UnescapeU(str).value| && out[..q] == old(out[..p]) + UnescapeU(str).value
      && rest == UnescapeU(str).rest
  {
    hide Utf8, ReadHex, SurrogatePair, NulFree;
    q := p;
    var uc := ReadHex(str).value;
    var ptr := str[4..];
    if LowSurrogate(uc) || uc == 0 {
      return q, ptr;
    }
    if HighSurrogate(uc) {
      if First(ptr) != BACKSLASH || First(str[5..]) != LOWER_U {
        return q, ptr;
      }
      var uc2 := ReadHex(str[6..]).value;
      ptr := str[10..];
      if !LowSurrogate(uc2) {
        return q, ptr;
      }
      PairArithmetic(uc, uc2);
      uc := 0x1_0000 + uc % 0x400 * 0x400 + uc2 % 0x400;
    }
    q := PutUtf8(out, q, uc);
    rest := ptr;
  }

  /** parse_string, on every text on which it neither leaves the text or the buffer nor uses a
      number it has not read. */
  method ParseStringM(str: seq<byte>) returns (r: Parsed<seq<byte>>)
    requires NulFree(str) && !ParseString(str).Undefined?
    ensures r == ParseString(str)
  {
    if First(str) != QUOTE {
      return Failed;
    }
    var len := CountBody(str[1..]);
    var out := new byte[len + 1];
    var p: nat, ptr := 0, str[1..];
    assert out[..p] + ParseBody(ptr).value == ParseBody(ptr).value;
    while First(ptr) != QUOTE && First(ptr) != 0
      invariant NulFree(ptr) && ParseBody(ptr).Parsed? && p + |ParseBody(ptr).value| < out.Length
      invariant ParseBody(str[1..]) == Prepend(out[..p], ParseBody(ptr))
      decreases |ptr|
    {
      ghost var done := out[..p];
      if First(ptr) != BACKSLASH {
        PrependTwice(done, [ptr[0]], ParseBody(ptr[1..]));
        out[p] := First(ptr);
        p, ptr := p + 1, ptr[1..];
        assert out[..p] == done + [out[p - 1]];
      } else {
        ParseBodyEscape(ptr);
        UnescapeNulFree(ptr[1..]);
        PrependTwice(done, Unescape(ptr[1..]).value, ParseBody(Unescape(ptr[1..]).rest));
        p, ptr := PutUnescaped(out, p, ptr[1..]);
      }
    }
    assert out[..p] + [] == out[..p];
    out[p] := 0;
    if First(ptr) == QUOTE {
      ptr := ptr[1..];
    }
    return Parsed(out[..p], ptr);
  }

  lemma PrependTwice(a: seq<byte>, b: seq<byte>, r: Parsed<seq<byte>>)
    ensures Prepend(a, Prepend(b, r)) == Prepend(a + b, r)
  {
    if r.Parsed? {
      assert a + (b + r.value) == (a + b) + r.value;
    }
  }

  lemma UnescapeNulFree(s: seq<byte>)
    requires NulFree(s) && Unescape(s).Parsed?
    ensures NulFree(Unescape(s).rest)
  {}

  // ----- numbers ---------------------------------------------------------------------------

  /** Digit after digit, on to the number n. */
  method ReadDigits(n0: nat, s: seq<byte>) returns (n: nat, k: nat, ptr: seq<byte>)
    ensures (n, k, ptr) == Digits(n0, s)
  {
    n, k, ptr := n0, 0, s;
    while ZERO <= First(ptr) <= NINE
      invariant Digits(n0, s) == (Digits(n, ptr).0, k + Digits(n, ptr).1, Digits(n, ptr).2)
      decreases |ptr|
    {
      n, k, ptr := n * 10 + (First(ptr) as int - 48), k + 1, ptr[1..];
    }
  }

  /** The fractional part, if any. */
  method ReadFraction(n0: nat, num: seq<byte>) returns (n: nat, scale: nat, ptr: seq<byte>)
    ensures (n, scale, ptr) == Fraction(n0, num)
  {
    n, scale, ptr := n0, 0, num;
    if First(ptr) == POINT && IsDigit(First(ptr[1..])) {
      n, scale, ptr := ReadDigits(n, ptr[1..]);
    }
  }

  /** The exponent, if any. */
  method ReadExponent(num: seq<byte>) returns (exponent: int, ptr: seq<byte>)
    ensures (exponent, ptr) == Exponent(num)
  {
    ptr := num;
    var sign: int, subscale: nat, count: nat := 1, 0, 0;
    if First(ptr) == LOWER_E || First(ptr) == UPPER_E {
      ptr := ptr[1..];
      if First(ptr) == 43 {
        ptr := ptr[1..];
      } else if First(ptr) == MINUS {
        sign, ptr := -1, ptr[1..];
      }
      assert ptr == num[1..] || ptr == num[2..];
      subscale, count, ptr := ReadDigits(0, ptr);
    }
    exponent := subscale * sign;
  }

  /** parse_number, with the double as a mantissa and a power of ten. */
  method ParseNumberM(num: seq<byte>) returns (r: Parsed<Json>)
    requires First(num) == MINUS || IsDigit(First(num))
    ensures r == ParseNumber(num)
  {
    hide Digits, Fraction, Exponent;
    var ptr := num;
    var n: nat, scale: nat, count: nat, sign: int, exponent: int := 0, 0, 0, 1, 0;
    if First(ptr) == MINUS {
      sign, ptr := -1, ptr[1..];
    }
    if First(ptr) == ZERO {
      ptr := ptr[1..];
    }
    if 49 <= First(ptr) <= NINE {
      n, count, ptr := ReadDigits(0, ptr);
    }
    n, scale, ptr := ReadFraction(n, ptr);
    exponent, ptr := ReadExponent(ptr);
    return Parsed(Number(sign * n, exponent - scale), ptr);
  }

  lemma IntLength(m: int)
    requires -0x8000_0000 <= m < 0x8000_0000
    ensures |PrintInt(m)| <= 11 && NulFree(PrintInt(m))
  {
    IntFigures(if m < 0 then -m else m);
  }

  /** print_number of an integer: sprintf into 21 bytes. */
  method PrintNumber(m: int) returns (out: array<byte>)
    requires -0x8000_0000 <= m < 0x8000_0000
    ensures fresh(out) && Holds(out, PrintInt(m))
  {
    IntLength(m);
    out := new byte[21];
    var text := PrintInt(m);
    forall k | 0 <= k < |text| { out[k] := text[k]; }
    out[|text|] := 0;
  }

  // ----- printing trees --------------------------------------------------------------------

  /** cJSON_strdup. */
  method Strdup(text: seq<byte>) returns (out: array<byte>)
    ensures fresh(out) && Holds(out, text)
  {
    out := new byte[|text| + 1];
    forall k | 0 <= k < |text| { out[k] := text[k]; }
    out[|text|] := 0;
  }

  /** The length print_array counts for its entries. */
  function EntriesLength(items: seq<Json>, depth: nat, fmt: bool): nat {
    if items == [] then 0
    else |Print(items[0], depth + 1, fmt)| + 2 + (if fmt then 1 else 0) + EntriesLength(items[1..], depth, fmt)
  }

  lemma {:induction false} ItemsFit(items: seq<Json>, depth: nat, fmt: bool)
    ensures |PrintItems(items, depth, fmt)| <= EntriesLength(items, depth, fmt)
  {
    if items != [] {
      ItemsFit(items[1..], depth, fmt);
    }
  }

  lemma {:induction false} PrintNulFree(j: Json, depth: nat, fmt: bool)
    requires Printable(j)
    ensures NulFree(Print(j, depth, fmt))
    decreases j, 1
  {
    match j {
      case Number(m, _) => IntLength(m);
      case String(t) => EscapeAllNulFree(t);
      case Array(items) => ItemsNulFree(items, depth, fmt);
      case Object(members) => if members != [] { MembersNulFree(members, depth + 1, fmt); }
      case _ =>
    }
  }

  lemma {:induction false} ItemsNulFree(items: seq<Json>, depth: nat, fmt: bool)
    requires forall i :: 0 <= i < |items| ==> Printable(items[i])
    ensures NulFree(PrintItems(items, depth, fmt))
    decreases items, 0
  {
    if items != [] {
      PrintNulFree(items[0], depth + 1, fmt);
      ItemsNulFree(items[1..], depth, fmt);
    }
  }

  lemma {:induction false} MembersNulFree(members: seq<Member>, depth: nat, fmt: bool)
    requires forall i :: 0 <= i < |members| ==> NulFree(members[i].name) && Printable(members[i].value)
    ensures NulFree(PrintMembers(members, depth, fmt))
    decreases members, 0
  {
    if members != [] {
      PrintNulFree(members[0].value, depth, fmt);
      EscapeAllNulFree(members[0].name);
      assert NulFree(PrintPair(members[0], depth, fmt)) by {
        assert NulFree(Quote(members[0].name));
      }
      assert NulFree(PrintMember(members[0], depth, fmt) + Terminator(|members| > 1, fmt));
      MembersNulFree(members[1..], depth, fmt);
    }
  }

  lemma PrintItemsStep(items: seq<Json>, i: nat, depth: nat, fmt: bool)
    requires i < |items|
    ensures PrintItems(items[i..], depth, fmt) ==
      Print(items[i], depth + 1, fmt) + Separator(i != |items| - 1, fmt) + PrintItems(items[i + 1..], depth, fmt)
    ensures EntriesLength(items[i..], depth, fmt) ==
      |Print(items[i], depth + 1, fmt)| + 2 + (if fmt then 1 else 0) + EntriesLength(items[i + 1..], depth, fmt)
  {
    assert items[i..][1..] == items[i + 1..];
  }

  /** The entries hold the printed items. */
  ghost predicate HoldItems(entries: seq<array<byte>>, items: seq<Json>, n: nat, depth: nat, fmt: bool)
    reads entries
  {
    |entries| == n <= |items| && forall k :: 0 <= k < n ==> Holds(entries[k], Print(items[k], depth + 1, fmt))
  }

  method PutSeparator(out: array<byte>, p: nat, more: bool, fmt: bool) returns (q: nat)
    requires p + |Separator(more, fmt)| < out.Length
    modifies out
    ensures q == p + |Separator(more, fmt)| && out[..q] == old(out[..p]) + Separator(more, fmt)
  {
    q := p;
    if more {
      out[q] := COMMA;
      q := q + 1;
      if fmt {
        out[q] := SPACE;
        q := q + 1;
      }
      out[q] := 0;
    }
  }

  /** The second pass of print_array: what fits follows from the length counted. */
  method ComposeArray(items: seq<Json>, entries: seq<array<byte>>, len: nat, depth: nat, fmt: bool)
    returns (out: array<byte>)
    requires Printable(Array(items)) && items != [] && HoldItems(entries, items, |items|, depth, fmt)
    requires len == 5 + EntriesLength(items, depth, fmt)
    ensures fresh(out) && Holds(out, Print(Array(items), depth, fmt))
  {
    ItemsFit(items, depth, fmt);
    PrintArray(items, depth, fmt);
    out := new byte[len];
    out[0] := OPEN_BRACKET;
    var p: nat := 1;
    out[p] := 0;
    assert out[..p] == [OPEN_BRACKET];
    p := PutEntries(out, p, items, entries, depth, fmt);
    out[p] := CLOSE_BRACKET;
    p := p + 1;
    out[p] := 0;
    assert out[..p] == [OPEN_BRACKET] + PrintItems(items, depth, fmt) + [CLOSE_BRACKET];
  }

  method PutEntries(out: array<byte>, p0: nat, items: seq<Json>, entries: seq<array<byte>>, depth: nat, fmt: bool)
    returns (p: nat)
    requires Printable(Array(items)) && HoldItems(entries, items, |items|, depth, fmt) && out !in entries
    requires p0 + |PrintItems(items, depth, fmt)| < out.Length
    modifies out
    ensures p == p0 + |PrintItems(items, depth, fmt)| && out[..p] == old(out[..p0]) + PrintItems(items, depth, fmt)
  {
    p := p0;
    ghost var whole := out[..p0] + PrintItems(items, depth, fmt);
    assert items[0..] == items && items[|items|..] == [];
    for i := 0 to |items|
      invariant HoldItems(entries, items, |items|, depth, fmt)
      invariant p <= out.Length && out[..p] + PrintItems(items[i..], depth, fmt) == whole
    {
      hide *;
      PrintItemsStep(items, i, depth, fmt);
      ghost var done, text := out[..p], Print(items[i], depth + 1, fmt);
      ghost var sep, rest := Separator(i != |items| - 1, fmt), PrintItems(items[i + 1..], depth, fmt);
      SumOfParts(done, text, sep, rest, whole);
      p := PutItemAt(out, p, items, entries, i, depth, fmt);
    }
  }

  method PutItemAt(out: array<byte>, p: nat, items: seq<Json>, entries: seq<array<byte>>, i: nat, depth: nat,
      fmt: bool) returns (q: nat)
    requires Printable(Array(items)) && HoldItems(entries, items, |items|, depth, fmt) && out !in entries && i < |items|
    requires p + |Print(items[i], depth + 1, fmt)| + |Separator(i != |items| - 1, fmt)| < out.Length
    modifies out
    ensures q == p + |Print(items[i], depth + 1, fmt)| + |Separator(i != |items| - 1, fmt)|
    ensures out[..q] == old(out[..p]) + Print(items[i], depth + 1, fmt) + Separator(i != |items| - 1, fmt)
  {
    PrintableItem(items, i, depth, fmt);
    hide Print, Printable, Separator, Holds, NulFree;
    q := PutEntry(out, p, entries[i], Print(items[i], depth + 1, fmt), i != |items| - 1, fmt);
  }

  lemma PrintArray(items: seq<Json>, depth: nat, fmt: bool)
    ensures Print(Array(items), depth, fmt) == [OPEN_BRACKET] + PrintItems(items, depth, fmt) + [CLOSE_BRACKET]
  {}

  lemma PrintableItem(items: seq<Json>, i: nat, depth: nat, fmt: bool)
    requires Printable(Array(items)) && i < |items|
    ensures Printable(items[i]) && NulFree(Print(items[i], depth, fmt)) && NulFree(Print(items[i], depth + 1, fmt))
  {
    PrintNulFree(items[i], depth, fmt);
    PrintNulFree(items[i], depth + 1, fmt);
  }

  lemma SumOfParts(done: seq<byte>, text: seq<byte>, sep: seq<byte>, rest: seq<byte>, whole: seq<byte>)
    requires done + (text + sep + rest) == whole
    ensures (done + text + sep) + rest == whole && |done| + |text| + |sep| + |rest| == |whole|
  {}

  /** One entry and what separates it from the next. */
  method PutEntry(out: array<byte>, p: nat, entry: array<byte>, ghost text: seq<byte>, more: bool, fmt: bool)
    returns (q: nat)
    requires out != entry && Holds(entry, text) && NulFree(text) && p + |text| + |Separator(more, fmt)| < out.Length
    modifies out
    ensures q == p + |text| + |Separator(more, fmt)| && out[..q] == old(out[..p]) + text + Separator(more, fmt)
  {
    q := PutText(out, p, entry, text);
    q := PutSeparator(out, q, more, fmt);
  }

  function MemberLength(m: Member, depth: nat, fmt: bool): nat {
    |Print(m.value, depth, fmt)| + |Quote(m.name)| + 2 + if fmt then 2 + depth else 0
  }

  /** The length print_object counts for its members. */
  function MembersLength(members: seq<Member>, depth: nat, fmt: bool): nat {
    if members == [] then 0
    else MemberLength(members[0], depth, fmt) + MembersLength(members[1..], depth, fmt)
  }

  lemma {:induction false} MembersFit(members: seq<Member>, depth: nat, fmt: bool)
    ensures |PrintMembers(members, depth, fmt)| <= MembersLength(members, depth, fmt)
  {
    if members != [] {
      MembersFit(members[1..], depth, fmt);
      var q, v := Quote(members[0].name), Print(members[0].value, depth, fmt);
      assert |PrintMember(members[0], depth, fmt)| == |q| + |v| + if fmt then depth + 2 else 1;
    }
  }

  /** The bytes print_object allocates. */
  function ObjectBuffer(members: seq<Member>, depth: nat, fmt: bool): nat {
    if members == [] then (if fmt then depth + 3 else 3)
    else 7 + (if fmt then depth + 1 else 0) + MembersLength(members, depth + 1, fmt)
  }

  /** The text and its terminator fit the buffer print_object allocates, except for a formatted
      empty object at depth 0: there one byte is written past the end. */
  lemma ObjectBufferFits(members: seq<Member>, depth: nat, fmt: bool)
    ensures |Print(Object(members), depth, fmt)| + 1 <= ObjectBuffer(members, depth, fmt) <==>
      !(fmt && depth == 0 && members == [])
  {
    if members != [] {
      MembersFit(members, depth + 1, fmt);
    }
  }

  lemma EmptyObjectOverflows()
    ensures |Print(Object([]), 0, true)| + 1 == 4 && ObjectBuffer([], 0, true) == 3
  {}

  lemma PrintMembersStep(members: seq<Member>, i: nat, depth: nat, fmt: bool)
    requires i < |members|
    ensures PrintMembers(members[i..], depth, fmt) ==
      PrintMember(members[i], depth, fmt) + Terminator(i != |members| - 1, fmt) +
        PrintMembers(members[i + 1..], depth, fmt)
    ensures MembersLength(members[i..], depth, fmt) ==
      MemberLength(members[i], depth, fmt) + MembersLength(members[i + 1..], depth, fmt)
  {
    hide Print, Quote, PrintMember, Terminator;
    assert members[i..][1..] == members[i + 1..];
  }

  lemma PrintableMember(members: seq<Member>, i: nat, depth: nat, fmt: bool)
    requires Printable(Object(members)) && i < |members|
    ensures Printable(members[i].value) && NulFree(members[i].name)
    ensures NulFree(Print(members[i].value, depth, fmt)) && NulFree(Quote(members[i].name))
  {
    PrintNulFree(members[i].value, depth, fmt);
    EscapeAllNulFree(members[i].name);
  }

  /** The names and entries hold the printed members. */
  ghost predicate HoldMembers(names: seq<array<byte>>, entries: seq<array<byte>>, members: seq<Member>, n: nat,
      depth: nat, fmt: bool)
    reads names, entries
  {
    && |names| == |entries| == n <= |members|
    && forall k :: 0 <= k < n ==>
      Holds(names[k], Quote(members[k].name)) && Holds(entries[k], Print(members[k].value, depth, fmt))
  }

  /** A run of tabs. */
  method PutTabs(out: array<byte>, p: nat, n: int) returns (q: nat)
    requires p + |Tabs(n)| < out.Length
    modifies out
    ensures q == p + |Tabs(n)| && out[..q] == old(out[..p]) + Tabs(n)
  {
    q := p;
    var j: nat := 0;
    while j < n
      invariant j <= |Tabs(n)| && q == p + j && out[..q] == old(out[..p]) + Tabs(j)
    {
      TabsLast(j + 1);
      out[q] := TAB;
      q := q + 1;
      j := j + 1;
    }
  }

  lemma {:induction false} TabsLast(n: nat)
    requires n > 0
    ensures Tabs(n) == Tabs(n - 1) + [TAB]
  {
    if n > 1 {
      TabsLast(n - 1);
    }
  }

  function MemberHead(m: Member, depth: nat, fmt: bool): seq<byte> {
    Indent(depth, fmt) + Quote(m.name) + if fmt then [COLON, TAB] else [COLON]
  }

  lemma MemberParts(m: Member, depth: nat, fmt: bool)
    ensures PrintMember(m, depth, fmt) == MemberHead(m, depth, fmt) + Print(m.value, depth, fmt)
  {
    hide Indent, Quote, Print;
  }

  method PutHead(out: array<byte>, p: nat, name: array<byte>, ghost m: Member, depth: nat, fmt: bool) returns (q: nat)
    requires out != name && Holds(name, Quote(m.name)) && NulFree(Quote(m.name))
      && p + |MemberHead(m, depth, fmt)| < out.Length
    modifies out
    ensures q == p + |MemberHead(m, depth, fmt)| && out[..q] == old(out[..p]) + MemberHead(m, depth, fmt)
  {
    hide *;
    HeadLength(m, depth, fmt);
    q := PutIndent(out, p, depth, fmt);
    q := PutText(out, q, name, Quote(m.name));
    q := PutColon(out, q, fmt);
  }

  lemma HeadLength(m: Member, depth: nat, fmt: bool)
    ensures MemberHead(m, depth, fmt) == Indent(depth, fmt) + Quote(m.name) + if fmt then [COLON, TAB] else [COLON]
    ensures |MemberHead(m, depth, fmt)| == |Indent(depth, fmt)| + |Quote(m.name)| + if fmt then 2 else 1
  {
    hide Indent, Quote;
  }

  method PutByte(out: array<byte>, p: nat, c: byte) returns (q: nat)
    requires p < out.Length
    modifies out
    ensures q == p + 1 && out[..q] == old(out[..p]) + [c]
  {
    out[p] := c;
    q := p + 1;
  }

  method PutColon(out: array<byte>, p: nat, fmt: bool) returns (q: nat)
    requires p + (if fmt then 2 else 1) <= out.Length
    modifies out
    ensures var colon := if fmt then [COLON, TAB] else [COLON]; q == p + |colon| && out[..q] == old(out[..p]) + colon
  {
    q := PutByte(out, p, COLON);
    if fmt {
      q := PutByte(out, q, TAB);
    }
  }

  method PutIndent(out: array<byte>, p: nat, n: int, fmt: bool) returns (q: nat)
    requires p + |Indent(n, fmt)| < out.Length
    modifies out
    ensures q == p + |Indent(n, fmt)| && out[..q] == old(out[..p]) + Indent(n, fmt)
  {
    q := p;
    if fmt {
      q := PutTabs(out, q, n);
    }
  }

  method PutNewLine(out: array<byte>, p: nat, fmt: bool) returns (q: nat)
    requires p + |NewLine(fmt)| < out.Length
    modifies out
    ensures q == p + |NewLine(fmt)| && out[..q] == old(out[..p]) + NewLine(fmt)
  {
    q := p;
    if fmt {
      q := PutByte(out, q, NEWLINE);
    }
  }

  method PutMember(out: array<byte>, p: nat, name: array<byte>, entry: array<byte>, ghost m: Member, depth: nat,
      fmt: bool) returns (q: nat)
    requires out != name && out != entry && Holds(name, Quote(m.name)) && Holds(entry, Print(m.value, depth, fmt))
    requires NulFree(Quote(m.name)) && NulFree(Print(m.value, depth, fmt))
      && p + |PrintMember(m, depth, fmt)| < out.Length
    modifies out
    ensures q == p + |PrintMember(m, depth, fmt)| && out[..q] == old(out[..p]) + PrintMember(m, depth, fmt)
  {
    hide Print, Quote, NulFree, MemberHead, PrintMember;
    MemberParts(m, depth, fmt);
    q := PutHead(out, p, name, m, depth, fmt);
    q := PutText(out, q, entry, Print(m.value, depth, fmt));
  }

  /** What follows a member. */
  method PutTerminator(out: array<byte>, p: nat, more: bool, fmt: bool) returns (q: nat)
    requires p + |Terminator(more, fmt)| < out.Length
    modifies out
    ensures q == p + |Terminator(more, fmt)| && out[..q] == old(out[..p]) + Terminator(more, fmt)
  {
    q := p;
    if more {
      out[q] := COMMA;
      q := q + 1;
    }
    if fmt {
      out[q] := NEWLINE;
      q := q + 1;
    }
    out[q] := 0;
  }

  method PutMembers(out: array<byte>, p0: nat, members: seq<Member>, names: seq<array<byte>>,
      entries: seq<array<byte>>, depth: nat, fmt: bool) returns (p: nat)
    requires Printable(Object(members)) && HoldMembers(names, entries, members, |members|, depth, fmt)
    requires out !in names && out !in entries && p0 + |PrintMembers(members, depth, fmt)| < out.Length
    modifies out
    ensures p == p0 + |PrintMembers(members, depth, fmt)|
      && out[..p] == old(out[..p0]) + PrintMembers(members, depth, fmt)
  {
    p := p0;
    ghost var whole := out[..p0] + PrintMembers(members, depth, fmt);
    assert members[0..] == members && members[|members|..] == [];
    for i := 0 to |members|
      invariant HoldMembers(names, entries, members, |members|, depth, fmt)
      invariant p <= out.Length && out[..p] + PrintMembers(members[i..], depth, fmt) == whole
    {
      hide *;
      PrintMembersStep(members, i, depth, fmt);
      ghost var done, text := out[..p], PrintMember(members[i], depth, fmt);
      ghost var sep, rest := Terminator(i != |members| - 1, fmt), PrintMembers(members[i + 1..], depth, fmt);
      SumOfParts(done, text, sep, rest, whole);
      p := PutMemberAt(out, p, members, names, entries, i, depth, fmt);
    }
  }

  method PutMemberAt(out: array<byte>, p: nat, members: seq<Member>, names: seq<array<byte>>,
      entries: seq<array<byte>>, i: nat, depth: nat, fmt: bool) returns (q: nat)
    requires Printable(Object(members)) && HoldMembers(names, entries, members, |members|, depth, fmt) && i < |members|
    requires out !in names && out !in entries
    requires p + |PrintMember(members[i], depth, fmt)| + |Terminator(i != |members| - 1, fmt)| < out.Length
    modifies out
    ensures q == p + |PrintMember(members[i], depth, fmt)| + |Terminator(i != |members| - 1, fmt)|
    ensures out[..q] == old(out[..p]) + PrintMember(members[i], depth, fmt) + Terminator(i != |members| - 1, fmt)
  {
    PrintableMember(members, i, depth, fmt);
    hide Print, PrintMember, Printable, Terminator, Holds, NulFree, Quote;
    q := PutMember(out, p, names[i], entries[i], members[i], depth, fmt);
    q := PutTerminator(out, q, i != |members| - 1, fmt);
  }

  lemma PrintObjectParts(members: seq<Member>, depth: nat, fmt: bool)
    requires members != []
    ensures Print(Object(members), depth, fmt) ==
      ([OPEN_BRACE] + NewLine(fmt) + PrintMembers(members, depth + 1, fmt)) + (Indent(depth, fmt) + [CLOSE_BRACE])
    ensures |Print(Object(members), depth, fmt)| == 1 + |NewLine(fmt)| + |PrintMembers(members, depth + 1, fmt)| +
      |Indent(depth, fmt)| + 1
  {
    hide PrintMembers, Indent, NewLine;
  }

  /** The second pass of print_object. */
  method ComposeObject(members: seq<Member>, names: seq<array<byte>>, entries: seq<array<byte>>, len: nat,
      depth: nat, fmt: bool) returns (out: array<byte>)
    requires Printable(Object(members)) && members != []
      && HoldMembers(names, entries, members, |members|, depth + 1, fmt)
    requires len == ObjectBuffer(members, depth, fmt)
    ensures fresh(out) && Holds(out, Print(Object(members), depth, fmt))
  {
    ObjectBufferFits(members, depth, fmt);
    hide Print, ObjectBuffer, HoldMembers, Printable;
    out := new byte[len];
    FillObject(out, members, names, entries, depth, fmt);
  }

  method FillObject(out: array<byte>, members: seq<Member>, names: seq<array<byte>>, entries: seq<array<byte>>,
      depth: nat, fmt: bool)
    requires Printable(Object(members)) && members != []
      && HoldMembers(names, entries, members, |members|, depth + 1, fmt)
    requires out !in names && out !in entries && |Print(Object(members), depth, fmt)| < out.Length
    modifies out
    ensures Holds(out, Print(Object(members), depth, fmt))
  {
    hide *;
    PrintObjectParts(members, depth, fmt);
    var p := OpenObject(out, fmt);
    p := PutMembers(out, p, members, names, entries, depth + 1, fmt);
    CloseObject(out, p, depth, fmt);
  }

  method OpenObject(out: array<byte>, fmt: bool) returns (p: nat)
    requires 1 + |NewLine(fmt)| < out.Length
    modifies out
    ensures p == 1 + |NewLine(fmt)| && out[..p] == [OPEN_BRACE] + NewLine(fmt)
  {
    p := PutByte(out, 0, OPEN_BRACE);
    p := PutNewLine(out, p, fmt);
  }

  method CloseObject(out: array<byte>, p: nat, depth: int, fmt: bool)
    requires p + |Indent(depth, fmt)| + 1 < out.Length
    modifies out
    ensures Holds(out, old(out[..p]) + (Indent(depth, fmt) + [CLOSE_BRACE]))
  {
    hide *;
    var q := PutIndent(out, p, depth, fmt);
    q := PutByte(out, q, CLOSE_BRACE);
    EndText(out, q, old(out[..p]) + (Indent(depth, fmt) + [CLOSE_BRACE]));
  }

  /** Terminate the text. */
  method EndText(out: array<byte>, p: nat, ghost text: seq<byte>)
    requires p == |text| < out.Length && out[..p] == text
    modifies out
    ensures Holds(out, text)
  {
    out[p] := 0;
  }

  /** strcpy and a step past the text. */
  method PutText(out: array<byte>, p: nat, a: array<byte>, ghost text: seq<byte>) returns (q: nat)
    requires out != a && Holds(a, text) && NulFree(text) && p + |text| < out.Length
    modifies out
    ensures q == p + |text| && out[..q] == old(out[..p]) + text
  {
    Strcpy(out, p, a, text);
    var n := Strlen(a, text);
    q := p + n;
  }

  /** print_value: every write stays inside the buffers allocated. A formatted empty object at
      depth 0 is left out, since its buffer is too short. */
  method PrintValue(item: Json, depth: nat, fmt: bool) returns (out: array<byte>)
    requires Printable(item) && !(fmt && depth == 0 && item == Object([]))
    ensures fresh(out) && Holds(out, Print(item, depth, fmt))
    ensures JsonSentences.Layout(Print(item, depth, fmt), item, depth, fmt)
    decreases item, 1
  {
    JsonSentences.PrintIsSentence(item, depth, fmt);
    hide JsonSentences.Layout;
    match item {
      case Null => out := Strdup(NULL_TEXT);
      case False => out := Strdup(FALSE_TEXT);
      case True => out := Strdup(TRUE_TEXT);
      case Number(m, _) => out := PrintNumber(m);
      case String(t) => out := PrintStringPtr(t);
      case Array(items) => out := PrintArrayM(items, depth, fmt);
      case Object(members) => out := PrintObjectM(members, depth, fmt);
    }
  }

  lemma HoldMoreItems(entries: seq<array<byte>>, ret: array<byte>, items: seq<Json>, i: nat, depth: nat, fmt: bool)
    requires i < |items| && HoldItems(entries, items, i, depth, fmt) && Holds(ret, Print(items[i], depth + 1, fmt))
    ensures HoldItems(entries + [ret], items, i + 1, depth, fmt)
  {
    hide Holds, Print;
  }

  /** Print one more item and count its length. */
  method AddItem(items: seq<Json>, i: nat, entries: seq<array<byte>>, len: nat, depth: nat, fmt: bool)
    returns (entries': seq<array<byte>>, len': nat)
    requires Printable(Array(items)) && i < |items| && HoldItems(entries, items, i, depth, fmt)
    ensures HoldItems(entries', items, i + 1, depth, fmt)
    ensures len' == len + |Print(items[i], depth + 1, fmt)| + 2 + if fmt then 1 else 0
    decreases items, 1
  {
    PrintableItem(items, i, depth, fmt);
    hide Print, Holds, NulFree, HoldItems;
    assert items[i] in items;
    NotEmptyAtTop(items[i], depth + 1, fmt);
    var ret := PrintValue(items[i], depth + 1, fmt);
    HoldMoreItems(entries, ret, items, i, depth, fmt);
    entries' := entries + [ret];
    var n := Strlen(ret, Print(items[i], depth + 1, fmt));
    len' := len + n + 2 + if fmt then 1 else 0;
  }

  lemma NotEmptyAtTop(j: Json, depth: nat, fmt: bool)
    requires depth > 0
    ensures !(fmt && depth == 0 && j == Object([]))
  {}

  /** print_array. */
  method PrintArrayM(items: seq<Json>, depth: nat, fmt: bool) returns (out: array<byte>)
    requires Printable(Array(items))
    ensures fresh(out) && Holds(out, Print(Array(items), depth, fmt))
    ensures JsonSentences.Layout(Print(Array(items), depth, fmt), Array(items), depth, fmt)
    decreases items, 3
  {
    JsonSentences.PrintIsSentence(Array(items), depth, fmt);
    hide JsonSentences.Layout;
    if items == [] {
      out := Strdup([OPEN_BRACKET, CLOSE_BRACKET]);
      return;
    }
    hide *;
    var entries, len := CollectItems(items, depth, fmt);
    out := ComposeArray(items, entries, len, depth, fmt);
  }

  /** The first pass of print_array. */
  method CollectItems(items: seq<Json>, depth: nat, fmt: bool) returns (entries: seq<array<byte>>, len: nat)
    requires Printable(Array(items))
    ensures HoldItems(entries, items, |items|, depth, fmt) && len == 5 + EntriesLength(items, depth, fmt)
    decreases items, 2
  {
    entries, len := [], 5;
    assert items[0..] == items && items[|items|..] == [];
    for i := 0 to |items|
      invariant HoldItems(entries, items, i, depth, fmt)
      invariant len + EntriesLength(items[i..], depth, fmt) == 5 + EntriesLength(items, depth, fmt)
    {
      hide *;
      PrintItemsStep(items, i, depth, fmt);
      entries, len := AddItem(items, i, entries, len, depth, fmt);
    }
  }

  lemma HoldMoreMembers(names: seq<array<byte>>, entries: seq<array<byte>>, str: array<byte>, ret: array<byte>,
      members: seq<Member>, i: nat, depth: nat, fmt: bool)
    requires i < |members| && HoldMembers(names, entries, members, i, depth, fmt)
    requires Holds(str, Quote(members[i].name)) && Holds(ret, Print(members[i].value, depth, fmt))
    ensures HoldMembers(names + [str], entries + [ret], members, i + 1, depth, fmt)
  {
    hide Holds, Print, Quote;
  }

  /** Print the name and value of one more member and count their lengths. */
  method AddMember(members: seq<Member>, i: nat, names: seq<array<byte>>, entries: seq<array<byte>>, len: nat,
      depth: nat, fmt: bool)
    returns (names': seq<array<byte>>, entries': seq<array<byte>>, len': nat)
    requires Printable(Object(members)) && i < |members| && depth > 0
      && HoldMembers(names, entries, members, i, depth, fmt)
    ensures HoldMembers(names', entries', members, i + 1, depth, fmt)
    ensures len' == len + MemberLength(members[i], depth, fmt)
    decreases members, 1
  {
    PrintableMember(members, i, depth, fmt);
    hide Print, Quote, Holds, NulFree, HoldMembers;
    assert members[i] in members;
    var str := PrintStringPtr(members[i].name);
    var ret := PrintValue(members[i].value, depth, fmt);
    HoldMoreMembers(names, entries, str, ret, members, i, depth, fmt);
    names', entries' := names + [str], entries + [ret];
    var n := Strlen(ret, Print(members[i].value, depth, fmt));
    var k := Strlen(str, Quote(members[i].name));
    len' := len + n + k + 2 + if fmt then 2 + depth else 0;
  }

  /** print_object. */
  method PrintObjectM(members: seq<Member>, depth: nat, fmt: bool) returns (out: array<byte>)
    requires Printable(Object(members)) && !(fmt && depth == 0 && members == [])
    ensures fresh(out) && Holds(out, Print(Object(members), depth, fmt))
    ensures JsonSentences.Layout(Print(Object(members), depth, fmt), Object(members), depth, fmt)
    decreases members, 3
  {
    JsonSentences.PrintIsSentence(Object(members), depth, fmt);
    hide JsonSentences.Layout;
    if members == [] {
      out := PrintEmptyObject(depth, fmt);
      return;
    }
    hide *;
    var names, entries, len := CollectMembers(members, depth, fmt);
    out := ComposeObject(members, names, entries, len, depth, fmt);
  }

  /** The first pass of print_object. */
  method CollectMembers(members: seq<Member>, depth: nat, fmt: bool)
    returns (names: seq<array<byte>>, entries: seq<array<byte>>, len: nat)
    requires Printable(Object(members)) && members != []
    ensures HoldMembers(names, entries, members, |members|, depth + 1, fmt) && len == ObjectBuffer(members, depth, fmt)
    decreases members, 2
  {
    names, entries := [], [];
    len := if fmt then 7 + depth + 1 else 7;
    assert members[0..] == members && members[|members|..] == [];
    for i := 0 to |members|
      invariant HoldMembers(names, entries, members, i, depth + 1, fmt)
      invariant len + MembersLength(members[i..], depth + 1, fmt) == ObjectBuffer(members, depth, fmt)
    {
      hide *;
      PrintMembersStep(members, i, depth + 1, fmt);
      names, entries, len := AddMember(members, i, names, entries, len, depth + 1, fmt);
    }
  }

  method PrintEmptyObject(depth: nat, fmt: bool) returns (out: array<byte>)
    requires !(fmt && depth == 0)
    ensures fresh(out) && Holds(out, Print(Object([]), depth, fmt))
  {
    out := new byte[if fmt then depth + 3 else 3];
    assert NewLine(fmt) + Indent(depth - 1, fmt) + [CLOSE_BRACE] == NewLine(fmt) +
      (Indent(depth - 1, fmt) + [CLOSE_BRACE]);
    var p := OpenObject(out, fmt);
    CloseObject(out, p, depth - 1, fmt);
  }

  // ----- parsing trees ---------------------------------------------------------------------

  /** skip. */
  method SkipM(s: seq<byte>) returns (ptr: seq<byte>)
    requires NulFree(s)
    ensures ptr == Skip(s) && NulFree(ptr)
  {
    ptr := s;
    while First(ptr) != 0 && First(ptr) <= 32
      invariant NulFree(ptr) && Skip(ptr) == Skip(s)
      decreases |ptr|
    {
      ptr := ptr[1..];
    }
  }

  /** parse_value, on texts on which no string goes wrong. */
  method ParseValueM(value: seq<byte>) returns (r: Parsed<Json>)
    requires NulFree(value) && !ParseValue(value).Undefined?
    ensures r == ParseValue(value) && (r.Parsed? ==> NulFree(r.rest))
    ensures JsonSentences.ReadsSentences(value, r)
    decreases |value|, 1
  {
    JsonSentences.ParserReads(value);
    hide JsonSentences.ReadsSentences;
    if NULL_TEXT <= value {
      return Parsed(Null, value[4..]);
    }
    if FALSE_TEXT <= value {
      return Parsed(False, value[5..]);
    }
    if TRUE_TEXT <= value {
      return Parsed(True, value[4..]);
    }
    if First(value) == QUOTE {
      var t := ParseStringM(value);
      if t.Parsed? {
        ParseStringRest(value);
      }
      r := if t.Parsed? then Parsed(String(t.value), t.rest) else Failed;
    } else if First(value) == MINUS || IsDigit(First(value)) {
      ParseNumberRest(value);
      r := ParseNumberM(value);
    } else if First(value) == OPEN_BRACKET {
      r := ParseArrayM(value);
    } else if First(value) == OPEN_BRACE {
      r := ParseObjectM(value);
    } else {
      r := Failed;
    }
  }

  lemma {:induction false} DigitsRest(n: nat, s: seq<byte>)
    requires NulFree(s)
    ensures NulFree(Digits(n, s).2)
    decreases |s|
  {
    if IsDigit(First(s)) {
      DigitsRest(n * 10 + (s[0] as int - 48), s[1..]);
    }
  }

  lemma ExponentRest(s: seq<byte>)
    requires NulFree(s)
    ensures NulFree(Exponent(s).1)
  {
    if First(s) == LOWER_E || First(s) == UPPER_E {
      DigitsRest(0, s[1..]);
      if |s| >= 2 { DigitsRest(0, s[2..]); }
    }
  }

  lemma FractionRest(n: nat, s: seq<byte>)
    requires NulFree(s)
    ensures NulFree(Fraction(n, s).2)
  {
    if First(s) == POINT {
      DigitsRest(n, s[1..]);
    }
  }

  lemma ParseNumberRest(s: seq<byte>)
    requires NulFree(s) && (First(s) == MINUS || IsDigit(First(s)))
    ensures NulFree(ParseNumber(s).rest)
  {
    hide Digits, Fraction, Exponent;
    var s1 := if First(s) == MINUS then s[1..] else s;
    var s2 := if First(s1) == ZERO then s1[1..] else s1;
    DigitsRest(0, s2);
    var (n, k, s3) := if IsDigit(First(s2)) && First(s2) != ZERO then Digits(0, s2) else (0, 0, s2);
    FractionRest(n, s3);
    ExponentRest(Fraction(n, s3).2);
  }

  lemma {:induction false} ParseBodyRest(s: seq<byte>)
    requires NulFree(s) && ParseBody(s).Parsed?
    ensures NulFree(ParseBody(s).rest)
    decreases |s|
  {
    if s != [] && s[0] != QUOTE {
      if s[0] != BACKSLASH {
        ParseBodyRest(s[1..]);
      } else {
        UnescapeNulFree(s[1..]);
        ParseBodyRest(Unescape(s[1..]).rest);
      }
    }
  }

  lemma ParseStringRest(s: seq<byte>)
    requires NulFree(s) && ParseString(s).Parsed?
    ensures NulFree(ParseString(s).rest)
  {
    ParseBodyRest(s[1..]);
  }

  /** What the rest of an array adds to the items before. */
  function MoreItems(v: seq<byte>): Parsed<seq<Json>> {
    if First(v) == COMMA then ParseItems(v[1..])
    else if First(v) == CLOSE_BRACKET then Parsed([], v[1..])
    else Failed
  }

  function AddTo<T>(items: seq<T>, r: Parsed<seq<T>>): Parsed<seq<T>> {
    if r.Parsed? then Parsed(items + r.value, r.rest) else r
  }

  lemma ParseItemsOpened(s: seq<byte>)
    ensures ParseItems(s) == match ParseValue(Skip(s))
      case Parsed(x, rest) => AddTo([x], MoreItems(Skip(rest)))
      case Failed => Failed
      case Undefined(fault) => Undefined(fault)
  {
    if ParseValue(Skip(s)).Parsed? {
      var p := ParseValue(Skip(s));
      assert [p.value] + [] == [p.value];
    }
  }

  lemma AddToTwice<T>(a: seq<T>, b: seq<T>, r: Parsed<seq<T>>)
    ensures AddTo(a, AddTo(b, r)) == AddTo(a + b, r)
  {
    if r.Parsed? {
      assert a + (b + r.value) == (a + b) + r.value;
    }
  }

  /** parse_array: the items one after the other. */
  method ParseArrayM(value: seq<byte>) returns (r: Parsed<Json>)
    requires NulFree(value) && First(value) == OPEN_BRACKET && !ParseValue(value).Undefined?
    ensures r == ParseValue(value) && (r.Parsed? ==> NulFree(r.rest))
    ensures JsonSentences.ReadsSentences(value, r)
    decreases |value|, 0
  {
    JsonSentences.ParserReads(value);
    hide JsonSentences.ReadsSentences;
    ParseArraySpec(value);
    var v := SkipM(value[1..]);
    if First(v) == CLOSE_BRACKET {
      return Parsed(Array([]), v[1..]);
    }
    ghost var spec := ParseItems(v);
    hide ParseValue, ParseItems, Skip;
    var items: seq<Json> := [];
    ParseItemsOpened(v);
    v := SkipM(v);
    var x := ParseValueM(v);
    if !x.Parsed? {
      return Failed;
    }
    items := [x.value];
    v := SkipM(x.rest);
    while First(v) == COMMA
      invariant |v| < |value| && NulFree(v) && spec == AddTo(items, MoreItems(v)) && !spec.Undefined?
      decreases |v|
    {
      ParseItemsOpened(v[1..]);
      v := SkipM(v[1..]);
      x := ParseValueM(v);
      if !x.Parsed? {
        return Failed;
      }
      AddToTwice(items, [x.value], MoreItems(Skip(x.rest)));
      items := items + [x.value];
      v := SkipM(x.rest);
    }
    if First(v) == CLOSE_BRACKET {
      assert items + [] == items;
      return Parsed(Array(items), v[1..]);
    }
    return Failed;
  }

  lemma ParseArraySpec(value: seq<byte>)
    requires First(value) == OPEN_BRACKET
    ensures value != [] && var v := Skip(value[1..]);
      ParseValue(value) ==
        if First(v) == CLOSE_BRACKET then Parsed(Array([]), v[1..])
        else match ParseItems(v)
          case Parsed(items, rest) => Parsed(Array(items), rest)
          case Failed => Failed
          case Undefined(fault) => Undefined(fault)
  {}

  /** What the rest of an object adds to the members before. */
  function MoreMembers(v: seq<byte>): Parsed<seq<Member>> {
    if First(v) == COMMA then ParseMembers(v[1..])
    else if First(v) == CLOSE_BRACE then Parsed([], v[1..])
    else Failed
  }

  lemma ParseMembersOpened(s: seq<byte>)
    ensures ParseMembers(s) == match ParseMember(Skip(s))
      case Parsed(m, rest) => AddTo([m], MoreMembers(Skip(rest)))
      case Failed => Failed
      case Undefined(fault) => Undefined(fault)
  {
    if ParseMember(Skip(s)).Parsed? {
      var p := ParseMember(Skip(s));
      assert [p.value] + [] == [p.value];
    }
  }

  /** The name, the colon and the value of a member. */
  method ParseMemberM(value: seq<byte>) returns (r: Parsed<Member>)
    requires NulFree(value) && !ParseMember(value).Undefined?
    ensures r == ParseMember(value) && (r.Parsed? ==> NulFree(r.rest))
    decreases |value|, 0
  {
    hide ParseValue, ParseString, Skip;
    var name := ParseStringM(value);
    if !name.Parsed? {
      return Failed;
    }
    ParseStringRest(value);
    var v := SkipM(name.rest);
    if First(v) != COLON {
      return Failed;
    }
    v := SkipM(v[1..]);
    var x := ParseValueM(v);
    if !x.Parsed? {
      return Failed;
    }
    return Parsed(Member(name.value, x.value), x.rest);
  }

  /** parse_object: the members one after the other. */
  method ParseObjectM(value: seq<byte>) returns (r: Parsed<Json>)
    requires NulFree(value) && First(value) == OPEN_BRACE && !ParseValue(value).Undefined?
    ensures r == ParseValue(value) && (r.Parsed? ==> NulFree(r.rest))
    ensures JsonSentences.ReadsSentences(value, r)
    decreases |value|, 0
  {
    JsonSentences.ParserReads(value);
    hide JsonSentences.ReadsSentences;
    ParseObjectSpec(value);
    var v := SkipM(value[1..]);
    if First(v) == CLOSE_BRACE {
      return Parsed(Object([]), v[1..]);
    }
    ghost var spec := ParseMembers(v);
    hide ParseValue, ParseMember, ParseMembers, Skip;
    ParseMembersOpened(v);
    v := SkipM(v);
    var m := ParseMemberM(v);
    if !m.Parsed? {
      return Failed;
    }
    var members := [m.value];
    v := SkipM(m.rest);
    while First(v) == COMMA
      invariant |v| < |value| && NulFree(v) && spec == AddTo(members, MoreMembers(v)) && !spec.Undefined?
      decreases |v|
    {
      ParseMembersOpened(v[1..]);
      v := SkipM(v[1..]);
      m := ParseMemberM(v);
      if !m.Parsed? {
        return Failed;
      }
      AddToTwice(members, [m.value], MoreMembers(Skip(m.rest)));
      members := members + [m.value];
      v := SkipM(m.rest);
    }
    if First(v) == CLOSE_BRACE {
      assert members + [] == members;
      return Parsed(Object(members), v[1..]);
    }
    return Failed;
  }

  lemma ParseObjectSpec(value: seq<byte>)
    requires First(value) == OPEN_BRACE
    ensures value != [] && var v := Skip(value[1..]);
      ParseValue(value) ==
        if First(v) == CLOSE_BRACE then Parsed(Object([]), v[1..])
        else match ParseMembers(v)
          case Parsed(members, rest) => Parsed(Object(members), rest)
          case Failed => Failed
          case Undefined(fault) => Undefined(fault)
  {}

  /** Print into buffers, read the buffer, parse: the same tree, and nothing of the text is left. */
  method PrintThenParseM(j: Json, fmt: bool) returns (r: Parsed<Json>)
    requires Printable(j) && !(fmt && j == Object([]))
    ensures r == Parsed(j, [])
  {
    PrintNulFree(j, 0, fmt);
    PrintThenParse(j, 0, fmt, []);
    PrintStarts(j, 0, fmt);
    hide Print, ParseValue;
    var out := PrintValue(j, 0, fmt);
    var n := Strlen(out, Print(j, 0, fmt));
    var text := SkipM(out[..n]);
    r := ParseValueM(text);
  }
}
