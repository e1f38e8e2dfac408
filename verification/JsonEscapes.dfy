/** Where reading a JSON string goes. parse_string counts first and copies second; on malformed
    escapes the two passes part, and only then can the text be left or the buffer overrun. */
module JsonEscapes {
  import opened Options
  import opened JsonSpec

  /** How far the second pass moves at the front of s, if it stays inside the text and has a
      number to use. */
  function Step(s: seq<byte>): (r: Option<nat>)
    requires s != [] && s[0] != QUOTE
    ensures r.Some? ==> 1 <= r.value <= |s|
  {
    if s[0] != BACKSLASH then Some(1)
    else if |s| < 2 then None
    else if s[1] != LOWER_U then Some(2)
    else if |s| < 6 || ReadHex(s[2..]).None? then None
    else if !PairAhead(s) then Some(6)
    else if |s| < 12 || ReadHex(s[8..]).None? then None
    else Some(12)
  }

  /** A high surrogate, and another escape right after it. */
  predicate PairAhead(s: seq<byte>) {
    |s| >= 8 && ReadHex(s[2..]).Some? && HighSurrogate(ReadHex(s[2..]).value) && s[6] == BACKSLASH && s[7] == LOWER_U
  }

  function StepBytes(s: seq<byte>): seq<byte>
    requires s != [] && s[0] != QUOTE && Step(s).Some?
  {
    if s[0] != BACKSLASH then [s[0]] else Unescape(s[1..]).value
  }

  lemma BodyStep(s: seq<byte>)
    requires s != [] && s[0] != QUOTE
    ensures if Step(s).Some?
      then (s[0] == BACKSLASH ==> Unescape(s[1..]).Parsed?)
        && ParseBody(s) == Prepend(StepBytes(s), ParseBody(s[Step(s).value..]))
      else ParseBody(s) == Undefined(if CutOff(s) then Outside else NoNumber)
  {
    if s[0] == BACKSLASH {
      EscapeOpened(s);
      if |s| >= 2 && s[1] == LOWER_U {
        UnicodeStep(s);
        assert s[1..][1..] == s[2..];
      } else {
        PlainEscape(s);
      }
      hide *;
    }
  }

  lemma EscapeOpened(s: seq<byte>)
    requires s != [] && s[0] == BACKSLASH
    ensures ParseBody(s) == match Unescape(s[1..])
      case Parsed(bytes, rest) => Prepend(bytes, ParseBody(rest))
      case Failed => Failed
      case Undefined(fault) => Undefined(fault)
    ensures |s| >= 2 && s[1] == LOWER_U ==> Unescape(s[1..]) == UnescapeU(s[1..][1..])
  {
    hide UnescapeU;
  }

  lemma PlainEscape(s: seq<byte>)
    requires s != [] && s[0] == BACKSLASH && (|s| >= 2 ==> s[1] != LOWER_U)
    ensures if |s| >= 2 then Step(s) == Some(2) && Unescape(s[1..]).Parsed? && Unescape(s[1..]).rest == s[2..]
      else Step(s).None? && CutOff(s) && Unescape(s[1..]) == Undefined(Outside)
  {
    hide UnescapeU, ReadHex;
    if |s| >= 2 {
      assert s[1..][1..] == s[2..];
    }
  }

  /** A backslash and u: how far, and why not. */
  lemma UnicodeStep(s: seq<byte>)
    requires |s| >= 2 && s[0] == BACKSLASH && s[1] == LOWER_U
    ensures var r := UnescapeU(s[2..]);
      if Step(s).Some? then r.Parsed? && r.rest == s[Step(s).value..]
      else r == Undefined(if CutOff(s) then Outside else NoNumber)
  {
    hide ReadHex, Utf8, SurrogatePair;
    var h := s[2..];
    if |s| >= 6 {
      assert h[4..] == s[6..];
      if |s| >= 7 {
        assert h[4..][0] == s[6] && h[5..] == s[7..];
      }
    }
    if |s| >= 8 {
      assert h[6..] == s[8..];
    }
    if |s| >= 12 {
      assert h[10..] == s[12..];
    }
  }

  // ----- reading -------------------------------------------------------------------------------

  /** The text ends inside the escape at its front. */
  predicate CutOff(s: seq<byte>) {
    && s != [] && s[0] == BACKSLASH
    && (|s| < 2 || (s[1] == LOWER_U && (|s| < 6 || (PairAhead(s) && |s| < 12))))
  }

  /** The second pass comes to position k. */
  ghost predicate Visits(s: seq<byte>, k: nat)
    decreases |s|
  {
    k == 0 || (s != [] && s[0] != QUOTE && Step(s).Some? && Step(s).value <= k
      && Visits(s[Step(s).value..], k - Step(s).value))
  }

  /** The second pass leaves the text exactly if it comes to an escape that the end of the text
      cuts off. */
  lemma {:induction false} LeavesTheText(s: seq<byte>)
    ensures ParseBody(s) == Undefined(Outside) <==> exists k :: 0 <= k <= |s| && Visits(s, k) && CutOff(s[k..])
    decreases |s|
  {
    hide CutOff, PairAhead, ParseBody, Step;
    assert s[0..] == s;
    if s == [] || s[0] == QUOTE {
      NotCutOff(s);
      forall k | 0 <= k <= |s| && Visits(s, k) ensures k == 0 {}
    } else {
      BodyStep(s);
      assert Visits(s, 0);
      if Step(s).Some? {
        StepNotCutOff(s);
        LeavesTheText(s[Step(s).value..]);
        CutOffLater(s);
      } else {
        forall k | 0 <= k <= |s| && Visits(s, k) ensures k == 0 {}
      }
    }
  }

  /** An escape cut off in the rest of the text is one cut off in the text. */
  lemma CutOffLater(s: seq<byte>)
    requires s != [] && s[0] != QUOTE && Step(s).Some? && !CutOff(s)
    ensures var t := s[Step(s).value..];
      (exists k :: 0 <= k <= |s| && Visits(s, k) && CutOff(s[k..])) <==>
        (exists k :: 0 <= k <= |t| && Visits(t, k) && CutOff(t[k..]))
  {
    hide CutOff, Step;
    var n := Step(s).value;
    var t := s[n..];
    assert s[0..] == s;
    forall k | 0 <= k <= |t| && Visits(t, k) && CutOff(t[k..]) ensures Visits(s, n + k) && CutOff(s[n + k..]) {
      assert t[k..] == s[n + k..];
    }
    forall k | 0 <= k <= |s| && Visits(s, k) && CutOff(s[k..]) ensures k >= n && Visits(t, k - n)
      && CutOff(t[k - n..]) {
      assert k != 0;
      assert t[k - n..] == s[k..];
    }
  }

  lemma NotCutOff(s: seq<byte>)
    requires s == [] || s[0] == QUOTE
    ensures !CutOff(s) && ParseBody(s).Parsed?
  {}

  lemma StepNotCutOff(s: seq<byte>)
    requires s != [] && s[0] != QUOTE && Step(s).Some?
    ensures !CutOff(s)
  {}

  /** A backslash among the last eleven characters is the only way to leave a text. */
  lemma EarlyEscapesStayInside(s: seq<byte>)
    requires forall i :: 0 <= i < |s| && |s| - 11 <= i ==> s[i] != BACKSLASH
    ensures ParseBody(s) != Undefined(Outside) && CountsInside(s)
  {
    LeavesTheText(s);
    forall k | 0 <= k <= |s| ensures !CutOff(s[k..]) {
      assert k < |s| ==> s[k..][0] == s[k];
    }
    EarlyCounts(s);
  }

  lemma {:induction false} EarlyCounts(s: seq<byte>)
    requires forall i :: 0 <= i < |s| && |s| - 11 <= i ==> s[i] != BACKSLASH
    ensures CountsInside(s)
    decreases |s|
  {
    if s != [] && s[0] != QUOTE {
      if s[0] == BACKSLASH {
        EarlyCounts(s[2..]);
      } else {
        EarlyCounts(s[1..]);
      }
    }
  }

  // ----- writing -------------------------------------------------------------------------------

  /** Where the first pass stops. */
  function CountEnd(s: seq<byte>): nat
    decreases |s|
  {
    if s == [] || s[0] == QUOTE then 0
    else if s[0] == BACKSLASH && |s| >= 2 then 2 + CountEnd(s[2..])
    else 1 + CountEnd(s[1..])
  }

  /** The second pass stops after at most e characters. */
  predicate Stops(s: seq<byte>, e: int)
    decreases |s|
  {
    if s == [] || s[0] == QUOTE then e >= 0
    else Step(s).Some? && Stops(s[Step(s).value..], e - Step(s).value)
  }

  lemma {:induction false} StopsLater(s: seq<byte>, e: int)
    requires Stops(s, e)
    ensures e >= 0
    decreases |s|
  {
    if s != [] && s[0] != QUOTE {
      StopsLater(s[Step(s).value..], e - Step(s).value);
    }
  }

  // The first pass may be in the middle of an escaped pair where the second pass starts anew:
  // `mid` says that it has counted the character before s and s[0] as one.

  function Left(s: seq<byte>, mid: bool): nat
    requires mid ==> s != []
  {
    if mid then 1 + BodyCount(s[1..]) else BodyCount(s)
  }

  function Ahead(s: seq<byte>, mid: bool): nat
    requires mid ==> s != []
  {
    if mid then 1 + CountEnd(s[1..]) else CountEnd(s)
  }

  predicate Inside(s: seq<byte>, mid: bool) {
    if mid then s != [] && CountsInside(s[1..]) else CountsInside(s)
  }

  /** The first pass over one character. */
  predicate Moves(s: seq<byte>, mid: bool, t: seq<byte>, mid': bool, n: nat, spent: nat) {
    && Inside(s, mid) && Inside(t, mid') && n <= |s| && t == s[n..]
    && Ahead(s, mid) == Ahead(t, mid') + n && Left(s, mid) == Left(t, mid') + spent
  }

  lemma OneMove(s: seq<byte>, mid: bool)
    requires Inside(s, mid) && Ahead(s, mid) >= 1
    ensures s != [] && Moves(s, mid, s[1..], !mid && s[0] == BACKSLASH, 1, if !mid && s[0] == BACKSLASH then 0 else 1)
  {
    if !mid && s[0] == BACKSLASH {
      assert s[1..][1..] == s[2..];
    }
  }

  lemma TwoMoves(s: seq<byte>, a: bool, t: seq<byte>, b: bool, u: seq<byte>, c: bool, m: nat, n: nat, x: nat, y: nat)
    requires Moves(s, a, t, b, m, x) && Moves(t, b, u, c, n, y)
    ensures Moves(s, a, u, c, m + n, x + y)
  {}

  /** Four characters: at least every second one is counted. */
  lemma FourMoves(s: seq<byte>, mid: bool) returns (mid': bool, spent: nat)
    requires Inside(s, mid) && Ahead(s, mid) >= 4
    ensures |s| >= 4 && Moves(s, mid, s[4..], mid', 4, spent) && spent >= 2
    ensures !mid && s[0] != BACKSLASH && s[1] != BACKSLASH ==> spent >= 3
  {
    hide Inside, Ahead, Left, Moves;
    var a, x := Move(s, mid);
    var b, y := Move(s[1..], a);
    var c, z := Move(s[2..], b);
    var d, v := Move(s[3..], c);
    mid', spent := d, x + y + z + v;
    TwoMoves(s, mid, s[1..], a, s[2..], b, 1, 1, x, y);
    TwoMoves(s, mid, s[2..], b, s[3..], c, 2, 1, x + y, z);
    TwoMoves(s, mid, s[3..], c, s[4..], d, 3, 1, x + y + z, v);
  }

  lemma Move(s: seq<byte>, mid: bool) returns (mid': bool, spent: nat)
    requires Inside(s, mid) && Ahead(s, mid) >= 1
    ensures s != [] && Moves(s, mid, s[1..], mid', 1, spent) && mid' == (!mid && s[0] == BACKSLASH)
    ensures spent == if mid' then 0 else 1
    ensures Inside(s[1..], mid') && Ahead(s[1..], mid') == Ahead(s, mid) - 1
    ensures |s| >= 2 ==> s[1..][1..] == s[2..]
    ensures |s| >= 2 ==> s[1..][0] == s[1]
  {
    OneMove(s, mid);
    mid' := !mid && s[0] == BACKSLASH;
    spent := if mid' then 0 else 1;
  }

  lemma ReadHexStarts(h: seq<byte>)
    requires ReadHex(h).Some?
    ensures h != [] && h[0] != BACKSLASH
    ensures |h| >= 2 && h[1] == BACKSLASH ==> ReadHex(h).value < 16
  {
    if |h| >= 2 && h[1] == BACKSLASH {
      SpaceOnly(h);
      assert HexRun(HexValue(h[0]), h[1..], 3) == (HexValue(h[0]), 0);
    }
  }

  lemma SpaceOnly(h: seq<byte>)
    requires |h| >= 2 && h[1] == BACKSLASH && ReadHex(h).Some?
    ensures !IsSpace(h[0])
  {
    assert SkipSpace(h[1..]) == h[1..];
  }

  /** Two characters: at least one is counted, and after a backslash and u, a new one starts. */
  lemma TwoCharacters(s: seq<byte>, mid: bool) returns (mid': bool, spent: nat)
    requires Inside(s, mid) && Ahead(s, mid) >= 2
    ensures |s| >= 2 && Moves(s, mid, s[2..], mid', 2, spent) && spent >= 1
    ensures s[0] == BACKSLASH && s[1] != BACKSLASH ==> !mid'
  {
    hide Inside, Ahead, Left, Moves;
    var a, x := Move(s, mid);
    var b, y := Move(s[1..], a);
    mid', spent := b, x + y;
    TwoMoves(s, mid, s[1..], a, s[2..], b, 1, 1, x, y);
  }

  lemma MovedInside(s: seq<byte>, mid: bool, t: seq<byte>, mid': bool, n: nat, spent: nat)
    requires Moves(s, mid, t, mid', n, spent)
    ensures Inside(t, mid') && Ahead(t, mid') == Ahead(s, mid) - n && n <= |s| && t == s[n..]
  {}

  /** What the second pass writes for one piece has been counted. */
  lemma PieceFits(s: seq<byte>, mid: bool) returns (mid': bool, spent: nat)
    requires s != [] && s[0] != QUOTE && Step(s).Some? && Inside(s, mid) && Step(s).value <= Ahead(s, mid)
    ensures Moves(s, mid, s[Step(s).value..], mid', Step(s).value, spent) && |StepBytes(s)| <= spent
  {
    if s[0] != BACKSLASH {
      mid', spent := Move(s, mid);
    } else if s[1] != LOWER_U {
      mid', spent := TwoCharacters(s, mid);
      assert s[1..][0] == s[1];
    } else {
      UnicodeBytes(s);
      hide Inside, Ahead, Left, Moves, StepBytes, ReadHex, PairAhead;
      mid', spent := UnicodePiece(s, mid);
    }
  }

  lemma UnicodeBytes(s: seq<byte>)
    requires |s| >= 2 && s[0] == BACKSLASH && s[1] == LOWER_U && Step(s).Some?
    ensures |StepBytes(s)| <= 4 && |s| >= 6 && s[2] != BACKSLASH
    ensures Step(s).value == 6 && s[3] == BACKSLASH ==> |StepBytes(s)| <= 1
    ensures Step(s).value == 12 ==> |s| >= 12 && s[6] == BACKSLASH && s[7] == LOWER_U
    ensures Step(s).value == 6 || Step(s).value == 12
  {
    assert s[1..][1..] == s[2..];
    UnicodeStep(s);
    ReadHexStarts(s[2..]);
    assert s[2..][0] == s[2] && s[2..][1] == s[3];
    hide ReadHex, SurrogatePair;
  }

  lemma UnicodePiece(s: seq<byte>, mid: bool) returns (mid': bool, spent: nat)
    requires s != [] && s[0] != QUOTE && Step(s).Some? && Inside(s, mid) && Step(s).value <= Ahead(s, mid)
    requires |s| >= 6 && s[0] == BACKSLASH && s[1] == LOWER_U && s[2] != BACKSLASH && |StepBytes(s)| <= 4
    requires Step(s).value == 6 && s[3] == BACKSLASH ==> |StepBytes(s)| <= 1
    requires Step(s).value == 12 ==> |s| >= 12 && s[6] == BACKSLASH && s[7] == LOWER_U
    requires Step(s).value == 6 || Step(s).value == 12
    ensures Moves(s, mid, s[Step(s).value..], mid', Step(s).value, spent) && |StepBytes(s)| <= spent
  {
    hide Inside, Ahead, Left, Moves, StepBytes, Step;
    var a, x := TwoCharacters(s, mid);
    MovedInside(s, mid, s[2..], a, 2, x);
    var b, y := FourMoves(s[2..], a);
    assert s[2..][4..] == s[6..] && s[2..][0] == s[2] && s[2..][1] == s[3];
    MovedInside(s[2..], a, s[6..], b, 4, y);
    TwoMoves(s, mid, s[2..], a, s[6..], b, 2, 4, x, y);
    mid', spent := b, x + y;
    if Step(s).value == 12 {
      var c, z := TwoCharacters(s[6..], b);
      assert s[6..][2..] == s[8..];
      MovedInside(s[6..], b, s[8..], c, 2, z);
      var d, v := FourMoves(s[8..], c);
      assert s[8..][4..] == s[12..];
      TwoMoves(s[6..], b, s[8..], c, s[12..], d, 2, 4, z, v);
      TwoMoves(s, mid, s[6..], b, s[12..], d, 6, 6, x + y, z + v);
      mid', spent := d, x + y + z + v;
    }
  }

  /** If the second pass stops no later than the first, all it writes has been counted. */
  lemma {:induction false} FitsFrom(s: seq<byte>, mid: bool)
    requires Inside(s, mid) && Stops(s, Ahead(s, mid))
    ensures ParseBody(s).Parsed? && |ParseBody(s).value| <= Left(s, mid)
    decreases |s|
  {
    if s != [] && s[0] != QUOTE {
      var n := Step(s).value;
      StopsLater(s[n..], Ahead(s, mid) - n);
      var mid', spent := PieceFits(s, mid);
      FitsFrom(s[n..], mid');
      BodyStep(s);
    }
  }

  lemma BodyFits(s: seq<byte>)
    requires CountsInside(s) && Stops(s, CountEnd(s))
    ensures ParseBody(s).Parsed? && |ParseBody(s).value| <= BodyCount(s)
  {
    FitsFrom(s, false);
  }

  // ----- literals --------------------------------------------------------------------------------

  /** The text from somewhere inside a literal on: what is left of it, its quote, and more text. */
  function Literal(a: seq<byte>, x: seq<byte>): seq<byte> {
    a + ([QUOTE] + x)
  }

  lemma LiteralRest(a: seq<byte>, x: seq<byte>, n: nat)
    requires n <= |a|
    ensures Literal(a, x)[n..] == Literal(a[n..], x)
  {}

  lemma {:induction false} SkipSpaceQuote(a: seq<byte>, x: seq<byte>) returns (k: nat)
    ensures k <= |a| && SkipSpace(Literal(a, x)) == Literal(a[k..], x)
      && SkipSpace(Literal(a, [])) == Literal(a[k..], [])
  {
    k := 0;
    if a != [] && IsSpace(a[0]) {
      k := SkipSpaceQuote(a[1..], x);
      k := k + 1;
      LiteralRest(a, x, 1);
      LiteralRest(a, [], 1);
      assert a[1..][k - 1..] == a[k..];
    } else {
      assert a[0..] == a;
    }
  }

  lemma {:induction false} HexRunQuote(n: nat, a: seq<byte>, x: seq<byte>, w: nat)
    ensures HexRun(n, Literal(a, x), w) == HexRun(n, Literal(a, []), w)
    decreases w
  {
    if w > 0 && a != [] && IsHex(a[0]) {
      LiteralRest(a, x, 1);
      LiteralRest(a, [], 1);
      HexRunQuote(16 * n + HexValue(a[0]), a[1..], x, w - 1);
    }
  }

  lemma HexNumberQuote(a: seq<byte>, x: seq<byte>, w: nat)
    requires w >= 2
    ensures HexNumber(Literal(a, x), w) == HexNumber(Literal(a, []), w)
  {
    HexRunQuote(0, a, x, w);
    if |a| >= 2 {
      LiteralRest(a, x, 2);
      LiteralRest(a, [], 2);
      HexRunQuote(0, a[2..], x, w - 2);
    }
  }

  /** A number in a literal ends with the literal. */
  lemma ReadHexQuote(a: seq<byte>, x: seq<byte>)
    ensures ReadHex(Literal(a, x)) == ReadHex(Literal(a, []))
  {
    var k := SkipSpaceQuote(a, x);
    hide HexNumber, SkipSpace;
    HexNumberQuote(a[k..], x, 4);
    if k < |a| {
      LiteralRest(a[k..], x, 1);
      LiteralRest(a[k..], [], 1);
      HexNumberQuote(a[k..][1..], x, 3);
    }
  }

  /** A piece inside the literal does not depend on the text after it. */
  lemma StepQuote(a: seq<byte>, x: seq<byte>)
    requires a != [] && a[0] != QUOTE
    ensures var s, s0 := Literal(a, x), Literal(a, []);
      Step(s) == Step(s0) || ((Step(s).None? || Step(s).value > |a|) && (Step(s0).None? || Step(s0).value > |a|))
  {
    hide ReadHex;
    if |a| >= 2 {
      LiteralRest(a, x, 2);
      LiteralRest(a, [], 2);
      ReadHexQuote(a[2..], x);
    }
    if |a| >= 8 {
      LiteralRest(a, x, 8);
      LiteralRest(a, [], 8);
      ReadHexQuote(a[8..], x);
    }
  }

  lemma {:induction false} StopsQuote(a: seq<byte>, x: seq<byte>)
    requires Stops(Literal(a, []), |a|)
    ensures Stops(Literal(a, x), |a|)
  {
    if a != [] && a[0] != QUOTE {
      var s, s0 := Literal(a, x), Literal(a, []);
      var n := Step(s0).value;
      StopsLater(s0[n..], |a| - n);
      StepQuote(a, x);
      LiteralRest(a, x, n);
      LiteralRest(a, [], n);
      StopsQuote(a[n..], x);
    }
  }

  lemma {:induction false} CountQuote(a: seq<byte>, x: seq<byte>)
    requires CountsInside(Literal(a, [])) && CountEnd(Literal(a, [])) == |a|
    ensures CountsInside(Literal(a, x)) && CountEnd(Literal(a, x)) == |a|
    ensures BodyCount(Literal(a, x)) == BodyCount(Literal(a, []))
  {
    if a != [] && a[0] != QUOTE {
      var n := if a[0] == BACKSLASH then 2 else 1;
      LiteralRest(a, [], 1);
      LiteralRest(a, x, n);
      LiteralRest(a, [], n);
      CountQuote(a[n..], x);
    }
  }

  /** A text of one ordinary letter. */
  function Copies(c: byte, n: nat): seq<byte> {
    seq(n, _ => c)
  }

  lemma {:induction false} CopiesCopied(c: byte, n: nat)
    requires c != QUOTE && c != BACKSLASH
    ensures ParseBody(Copies(c, n)) == Parsed(Copies(c, n), [])
  {
    if n > 0 {
      assert Copies(c, n)[1..] == Copies(c, n - 1);
      CopiesCopied(c, n - 1);
      assert Copies(c, n) == [c] + Copies(c, n - 1);
    }
  }

  /** Once the second pass has run over the closing quote it copies the text behind it. */
  lemma {:induction false} RunsOver(a: seq<byte>, n: nat)
    requires !Stops(Literal(a, []), |a|) && n >= 12
    ensures var r := ParseBody(Literal(a, Copies(122, n))); !r.Failed? && (r.Parsed? ==> |r.value| >= n - 12)
    decreases |a|
  {
    var s := Literal(a, Copies(122, n));
    hide ParseBody, Step, StepBytes, Copies, Literal;
    BodyStep(s);
    if Step(s).Some? {
      var k := Step(s).value;
      if k <= |a| {
        StaysOpen(a, Copies(122, n));
        LiteralRest(a, Copies(122, n), k);
        RunsOver(a[k..], n);
      } else {
        StepBound(s);
        RestCopied(a, n, k);
      }
    }
  }

  /** A piece that ends inside a literal that is run over leaves one that is run over. */
  lemma StaysOpen(a: seq<byte>, x: seq<byte>)
    requires a != [] && a[0] != QUOTE && !Stops(Literal(a, []), |a|)
    requires Step(Literal(a, x)).Some? && Step(Literal(a, x)).value <= |a|
    ensures !Stops(Literal(a[Step(Literal(a, x)).value..], []), |a| - Step(Literal(a, x)).value)
  {
    hide Step, Stops;
    var n := Step(Literal(a, x)).value;
    StepQuote(a, x);
    LiteralRest(a, [], n);
    OneStop(Literal(a, []), |a|);
  }

  lemma OneStop(s: seq<byte>, e: int)
    requires s != [] && s[0] != QUOTE && !Stops(s, e)
    ensures Step(s).Some? ==> !Stops(s[Step(s).value..], e - Step(s).value)
  {
    hide Step;
  }

  lemma RestCopied(a: seq<byte>, n: nat, k: nat)
    requires |a| < k <= 12 <= n
    ensures var s := Literal(a, Copies(122, n));
      k <= |s| && ParseBody(s[k..]).Parsed? && |ParseBody(s[k..]).value| >= n - 12
  {
    var s := Literal(a, Copies(122, n));
    assert s[k..] == Copies(122, n - (k - |a| - 1));
    CopiesCopied(122, n - (k - |a| - 1));
  }

  lemma StepBound(s: seq<byte>)
    requires s != [] && s[0] != QUOTE && Step(s).Some?
    ensures Step(s).value <= 12
  {}

  /** A literal, as the first pass sees it, is read without a fault in every text if and only if no
      escape of it runs over its closing quote and each has a number to use. */
  lemma LiteralSafe(b: seq<byte>)
    requires NulFree(b) && CountsInside(b + [QUOTE]) && CountEnd(b + [QUOTE]) == |b|
    ensures (forall tail :: NulFree(tail) ==> !ParseString([QUOTE] + b + [QUOTE] + tail).Undefined?) <==>
      Stops(b + [QUOTE], |b|)
  {
    assert Literal(b, []) == b + [QUOTE];
    if Stops(b + [QUOTE], |b|) {
      forall tail | NulFree(tail) ensures !ParseString([QUOTE] + b + [QUOTE] + tail).Undefined? {
        StoppedSafe(b, tail);
      }
    } else {
      var tail := Copies(122, BodyCount(b + [QUOTE]) + 13);
      RunOver(b, |tail|);
      assert NulFree(tail);
    }
  }

  lemma QuotedLiteral(b: seq<byte>, tail: seq<byte>)
    ensures [QUOTE] + b + [QUOTE] + tail == [QUOTE] + Literal(b, tail)
  {}

  lemma StringOpened(s: seq<byte>)
    ensures ParseString([QUOTE] + s) ==
      if !CountsInside(s) then Undefined(Outside)
      else if ParseBody(s).Parsed? && |ParseBody(s).value| > BodyCount(s) then Undefined(Overflow)
      else ParseBody(s)
  {
    assert ([QUOTE] + s)[1..] == s;
  }

  lemma StoppedSafe(b: seq<byte>, tail: seq<byte>)
    requires CountsInside(Literal(b, [])) && CountEnd(Literal(b, [])) == |b| && Stops(Literal(b, []), |b|)
    ensures !ParseString([QUOTE] + b + [QUOTE] + tail).Undefined?
  {
    hide *;
    QuotedLiteral(b, tail);
    StringOpened(Literal(b, tail));
    StopsQuote(b, tail);
    CountQuote(b, tail);
    BodyFits(Literal(b, tail));
  }

  lemma RunOver(b: seq<byte>, n: nat)
    requires CountsInside(Literal(b, [])) && CountEnd(Literal(b, [])) == |b| && !Stops(Literal(b, []), |b|)
    requires n == BodyCount(Literal(b, [])) + 13
    ensures ParseString([QUOTE] + b + [QUOTE] + Copies(122, n)).Undefined?
  {
    hide *;
    QuotedLiteral(b, Copies(122, n));
    StringOpened(Literal(b, Copies(122, n)));
    RunsOver(b, n);
    CountQuote(b, Copies(122, n));
  }

  // ----- instances -------------------------------------------------------------------------------

  /** "\\u1" and more text: two characters counted, seven written. */
  lemma OverflowInstance()
    ensures ParseString([QUOTE, BACKSLASH, LOWER_U, 49, QUOTE] + Copies(65, 8)) == Undefined(Overflow)
  {
    var s := [BACKSLASH, LOWER_U, 49, QUOTE] + Copies(65, 8);
    assert [QUOTE, BACKSLASH, LOWER_U, 49, QUOTE] + Copies(65, 8) == [QUOTE] + s;
    CountsTwo(s);
    SevenWritten(s);
    hide *;
    StringOpened(s);
  }

  lemma CountsTwo(s: seq<byte>)
    requires |s| >= 4 && s[..4] == [BACKSLASH, LOWER_U, 49, QUOTE]
    ensures BodyCount(s) == 2 && CountsInside(s)
  {
    assert s[2..][1..] == s[3..] && s[0] == s[..4][0] && s[2] == s[..4][2] && s[3] == s[..4][3];
    assert BodyCount(s[3..]) == 0 && BodyCount(s[2..]) == 1 + BodyCount(s[3..]);
    assert CountsInside(s[3..]) && CountsInside(s[2..]);
  }

  lemma SevenWritten(s: seq<byte>)
    requires s == [BACKSLASH, LOWER_U, 49, QUOTE] + Copies(65, 8)
    ensures ParseBody(s).Parsed? && |ParseBody(s).value| == 7
  {
    var h, q := s[2..], s[3..];
    assert h == [49] + q && h[1..] == q && q[0] == QUOTE && |h| == 10;
    assert HexRun(1, q, 3) == (1, 0) && HexRun(0, h, 4) == (1, 1);
    OneByte(h, 1);
    assert s[1..][1..] == h && s[6..] == Copies(65, 6);
    CopiesCopied(65, 6);
    EscapeOpened(s);
    hide ParseBody, ReadHex, UnescapeU, Copies;
    assert h[4..] == s[6..];
  }

  lemma OneByte(h: seq<byte>, u: nat)
    requires |h| >= 4 && ReadHex(h) == Some(u) && 0 < u < 0x80
    ensures UnescapeU(h) == Parsed([u], h[4..])
  {}

  /** "\\u12zz" has two digits only, and is read as character 18. */
  lemma ShortNumberInstance()
    ensures ParseString([QUOTE, BACKSLASH, LOWER_U, 49, 50, 122, 122, QUOTE]) == Parsed([18], [])
  {
    var s: seq<byte>, h: seq<byte> := [BACKSLASH, LOWER_U, 49, 50, 122, 122, QUOTE], [49, 50, 122, 122, QUOTE];
    assert [QUOTE, BACKSLASH, LOWER_U, 49, 50, 122, 122, QUOTE] == [QUOTE] + s;
    assert s[2..] == h && s[6..] == h[4..] == [QUOTE] && s[1..][1..] == h;
    ReadsEighteen();
    CountsFour();
    OneByte(h, 18);
    EscapeOpened(s);
    assert BodyCount(s) == 1 + BodyCount(h) && CountsInside(s);
    assert ParseBody([QUOTE]) == Parsed([], []);
    assert ParseBody(s) == Prepend([18], ParseBody([QUOTE])) && [18] + [] == [18];
    hide *;
    StringOpened(s);
  }

  lemma ReadsEighteen()
    ensures ReadHex([49, 50, 122, 122, QUOTE]) == Some(18)
  {
    var h := [49, 50, 122, 122, QUOTE];
    assert h[1..] == [50, 122, 122, QUOTE] && h[1..][1..] == [122, 122, QUOTE];
    assert HexRun(18, h[1..][1..], 2) == (18, 0);
    assert HexRun(1, h[1..], 3) == (18, 1);
    assert HexRun(0, h, 4) == (18, 2);
  }

  lemma CountsFour()
    ensures BodyCount([49, 50, 122, 122, QUOTE]) == 4 && CountsInside([49, 50, 122, 122, QUOTE])
  {
    var a: seq<byte>, b: seq<byte>, c: seq<byte> := [122, QUOTE], [122, 122, QUOTE], [50, 122, 122, QUOTE];
    var h: seq<byte> := [49, 50, 122, 122, QUOTE];
    assert a[1..] == [QUOTE] && b[1..] == a && c[1..] == b && h[1..] == c;
    assert BodyCount(a) == 1 && BodyCount(b) == 2 && BodyCount(c) == 3;
    assert CountsInside(a) && CountsInside(b) && CountsInside(c);
  }

  /** "\\u1 and the end of the text: the second pass goes on behind it. */
  lemma OutsideInstance()
    ensures ParseString([QUOTE, BACKSLASH, LOWER_U, 49]) == Undefined(Outside)
  {
    var s := [BACKSLASH, LOWER_U, 49];
    assert [QUOTE, BACKSLASH, LOWER_U, 49] == [QUOTE] + s;
    assert s[2..] == [49] && [49][1..] == [];
    assert CountsInside([49]) && CountsInside(s);
    assert CutOff(s);
    BodyStep(s);
    hide *;
    StringOpened(s);
  }
}
