/** JSON text by its grammar (sections 2 to 7 of RFC 8259): every way to write a value, byte for
    byte, and the value it stands for. */
module JsonGrammar {
  import opened JsonSpec

  // ----- derivations -------------------------------------------------------------------------

  /** A character of a string: as it is, by a letter after a backslash, by the four digits of a
      code point, or by the digits of a surrogate pair. */
  datatype Piece = Plain(c: byte) | Letter(l: byte) | Point(digits: seq<byte>) | Pair(high: seq<byte>, low: seq<byte>)

  datatype Power = NoPower | Power(letter: byte, sign: seq<byte>, digits: seq<byte>)

  /** A way to write a value. */
  datatype Doc =
    | NullDoc
    | FalseDoc
    | TrueDoc
    | Num(minus: bool, whole: seq<byte>, frac: seq<byte>, power: Power)
    | Str(pieces: seq<Piece>)
    | EmptyArr(blank: seq<byte>)
    | Arr(items: seq<Item>)
    | EmptyObj(blank: seq<byte>)
    | Obj(fields: seq<Field>)

  /** An item of an array, with the white space around it. */
  datatype Item = Item(before: seq<byte>, doc: Doc, after: seq<byte>)

  /** A member of an object, with the white space around its name, colon and value. */
  datatype Field = Field(before: seq<byte>, name: seq<Piece>, mid: seq<byte>, colon: seq<byte>, doc: Doc,
    after: seq<byte>)

  // ----- the bytes ---------------------------------------------------------------------------

  function PieceText(p: Piece): seq<byte> {
    match p
    case Plain(c) => [c]
    case Letter(l) => [92, l]
    case Point(ds) => [92, 117] + ds
    case Pair(h, l) => [92, 117] + h + ([92, 117] + l)
  }

  function PiecesText(ps: seq<Piece>): seq<byte> {
    if ps == [] then [] else PieceText(ps[0]) + PiecesText(ps[1..])
  }

  function PowerText(p: Power): seq<byte> {
    match p case NoPower => [] case Power(e, sign, ds) => [e] + sign + ds
  }

  function FracText(frac: seq<byte>): seq<byte> {
    if frac == [] then [] else [46] + frac
  }

  function Text(d: Doc): seq<byte> {
    match d
    case NullDoc => [110, 117, 108, 108]
    case FalseDoc => [102, 97, 108, 115, 101]
    case TrueDoc => [116, 114, 117, 101]
    case Num(minus, whole, frac, power) =>
      (if minus then [45] else []) + (whole + (FracText(frac) + PowerText(power)))
    case Str(ps) => [34] + PiecesText(ps) + [34]
    case EmptyArr(w) => [91] + w + [93]
    case Arr(items) => [91] + ItemsText(items) + [93]
    case EmptyObj(w) => [123] + w + [125]
    case Obj(fields) => [123] + FieldsText(fields) + [125]
  }

  function ItemsText(items: seq<Item>): seq<byte> {
    if items == [] then []
    else
      var i := items[0];
      i.before + (Text(i.doc) + (i.after + (if |items| > 1 then [44] + ItemsText(items[1..]) else [])))
  }

  function FieldsText(fields: seq<Field>): seq<byte> {
    if fields == [] then []
    else
      var f := fields[0];
      var more := if |fields| > 1 then [44] + FieldsText(fields[1..]) else [];
      f.before + (([34] + PiecesText(f.name) + [34]) + (f.mid + ([58] + (f.colon + (Text(f.doc) + (f.after + more))))))
  }

  // ----- what is allowed ---------------------------------------------------------------------

  predicate White(w: seq<byte>) {
    forall i :: 0 <= i < |w| ==> w[i] == 32 || w[i] == 9 || w[i] == 10 || w[i] == 13
  }

  predicate AllDigits(ds: seq<byte>) {
    forall i :: 0 <= i < |ds| ==> 48 <= ds[i] <= 57
  }

  predicate HexFigure(c: byte) {
    48 <= c <= 57 || 65 <= c <= 70 || 97 <= c <= 102
  }

  predicate FourHex(ds: seq<byte>) {
    |ds| == 4 && HexFigure(ds[0]) && HexFigure(ds[1]) && HexFigure(ds[2]) && HexFigure(ds[3])
  }

  predicate PieceOk(p: Piece) {
    match p
    case Plain(c) => c >= 32 && c != 34 && c != 92
    case Letter(l) => l in [34, 92, 47, 98, 102, 110, 114, 116]
    case Point(ds) => FourHex(ds) && HexNumberOf(ds) != 0 && !(0xD800 <= HexNumberOf(ds) < 0xE000)
    case Pair(h, l) => FourHex(h) && FourHex(l) && 0xD800 <= HexNumberOf(h) < 0xDC00 <= HexNumberOf(l) < 0xE000
  }

  predicate PiecesOk(ps: seq<Piece>) {
    forall i :: 0 <= i < |ps| ==> PieceOk(ps[i])
  }

  predicate PowerOk(p: Power) {
    match p
    case NoPower => true
    case Power(e, sign, ds) =>
      (e == 101 || e == 69) && (sign == [] || sign == [43] || sign == [45]) && ds != [] && AllDigits(ds)
  }

  predicate WellFormed(d: Doc) {
    match d
    case Num(_, whole, frac, power) =>
      whole != [] && AllDigits(whole) && (|whole| > 1 ==> whole[0] != 48) && AllDigits(frac) && PowerOk(power)
    case Str(ps) => PiecesOk(ps)
    case EmptyArr(w) => White(w)
    case Arr(items) => items != [] && ItemsOk(items)
    case EmptyObj(w) => White(w)
    case Obj(fields) => fields != [] && FieldsOk(fields)
    case _ => true
  }

  predicate ItemsOk(items: seq<Item>) {
    items == [] ||
    (White(items[0].before) && WellFormed(items[0].doc) && White(items[0].after) && ItemsOk(items[1..]))
  }

  predicate FieldsOk(fields: seq<Field>) {
    fields == [] ||
    var f := fields[0];
    && White(f.before) && PiecesOk(f.name) && White(f.mid) && White(f.colon) && WellFormed(f.doc) && White(f.after)
    && FieldsOk(fields[1..])
  }

  // ----- what it stands for ------------------------------------------------------------------

  function HexFigureOf(c: byte): nat
    requires HexFigure(c)
  {
    if c <= 57 then c - 48 else if c <= 70 then c - 55 else c - 87
  }

  function HexNumberOf(ds: seq<byte>): nat
    requires FourHex(ds)
  {
    4096 * HexFigureOf(ds[0]) + 256 * HexFigureOf(ds[1]) + 16 * HexFigureOf(ds[2]) + HexFigureOf(ds[3])
  }

  /** UTF-8 (section 3 of RFC 3629). */
  function CodePoint(u: nat): seq<byte>
    requires u < 0x11_0000
  {
    if u <= 0x7F then [u]
    else if u <= 0x7FF then [192 + u / 64, 128 + u % 64]
    else if u <= 0xFFFF then [224 + u / 4096, 128 + u / 64 % 64, 128 + u % 64]
    else [240 + u / 262144, 128 + u / 4096 % 64, 128 + u / 64 % 64, 128 + u % 64]
  }

  function PieceBytes(p: Piece): seq<byte>
    requires PieceOk(p)
  {
    match p
    case Plain(c) => [c]
    case Letter(l) =>
      [if l == 98 then 8 else if l == 102 then 12 else if l == 110 then 10 else if l == 114 then 13
       else if l == 116 then 9 else l]
    case Point(ds) => CodePoint(HexNumberOf(ds))
    case Pair(h, l) => CodePoint(0x1_0000 + 1024 * (HexNumberOf(h) - 0xD800) + (HexNumberOf(l) - 0xDC00))
  }

  function PiecesBytes(ps: seq<Piece>): seq<byte>
    requires PiecesOk(ps)
  {
    if ps == [] then [] else PieceBytes(ps[0]) + PiecesBytes(ps[1..])
  }

  /** The number in decimal digits. */
  function NumberOf(ds: seq<byte>): int {
    if ds == [] then 0 else 10 * NumberOf(ds[..|ds| - 1]) + (ds[|ds| - 1] as int - 48)
  }

  function PowerOf(p: Power): int {
    match p
    case NoPower => 0
    case Power(_, sign, ds) => if sign == [45] then 0 - NumberOf(ds) else NumberOf(ds)
  }

  /** A number is the number of all its digits, times ten to the power, less one for each digit of
      the fraction. */
  function Tree(d: Doc): Json
    requires WellFormed(d)
  {
    match d
    case NullDoc => Null
    case FalseDoc => False
    case TrueDoc => True
    case Num(minus, whole, frac, power) =>
      Number(if minus then 0 - NumberOf(whole + frac) else NumberOf(whole + frac), PowerOf(power) - |frac|)
    case Str(ps) => String(PiecesBytes(ps))
    case EmptyArr(_) => Array([])
    case Arr(items) => Array(ItemsTree(items))
    case EmptyObj(_) => Object([])
    case Obj(fields) => Object(FieldsTree(fields))
  }

  function ItemsTree(items: seq<Item>): seq<Json>
    requires ItemsOk(items)
  {
    if items == [] then [] else [Tree(items[0].doc)] + ItemsTree(items[1..])
  }

  function FieldsTree(fields: seq<Field>): seq<Member>
    requires FieldsOk(fields)
  {
    if fields == [] then []
    else [Member(PiecesBytes(fields[0].name), Tree(fields[0].doc))] + FieldsTree(fields[1..])
  }

  /** The bytes are a way to write the value. */
  ghost predicate Sentence(s: seq<byte>, j: Json) {
    exists d :: WellFormed(d) && Text(d) == s && Tree(d) == j
  }

  // ----- numbers are read --------------------------------------------------------------------

  /** Digits read on to a number are the digits of one number. */
  lemma {:induction false} DigitsRead(a: seq<byte>, ds: seq<byte>, t: seq<byte>)
    requires AllDigits(a) && AllDigits(ds) && !IsDigit(First(t))
    ensures NumberOf(a) >= 0 && Digits(NumberOf(a), ds + t) == (NumberOf(a + ds), |ds|, t)
    decreases |ds|
  {
    NumberNatural(a);
    if ds == [] {
      assert ds + t == t && a + ds == a;
    } else {
      var b := a + [ds[0]];
      assert b[..|a|] == a && NumberOf(b) == 10 * NumberOf(a) + (ds[0] as int - 48);
      DigitsRead(b, ds[1..], t);
      assert (ds + t)[1..] == ds[1..] + t && b + ds[1..] == a + ds;
      assert First(ds + t) == ds[0];
    }
  }

  lemma {:induction false} NumberNatural(a: seq<byte>)
    requires AllDigits(a)
    ensures NumberOf(a) >= 0
  {
    if a != [] {
      NumberNatural(a[..|a| - 1]);
    }
  }

  /** The steps of the parser on a power. */
  lemma ExponentSteps(s: seq<byte>, sign: seq<byte>, x: seq<byte>)
    requires First(s) == LOWER_E || First(s) == UPPER_E
    requires sign == [] ==> s[1..] == x && IsDigit(First(x))
    requires sign != [] ==> (sign == [43] || sign == [45]) && First(s[1..]) == sign[0] && s[2..] == x
    ensures Exponent(s) == (if sign == [45] then 0 - Digits(0, x).0 else Digits(0, x).0, Digits(0, x).2)
  {
    hide Digits;
  }

  lemma PowerParts(p: Power, rest: seq<byte>)
    requires p.Power? && p.digits != []
    ensures var s, x := PowerText(p) + rest, p.digits + rest;
      First(s) == p.letter && First(x) == p.digits[0]
      && (p.sign == [] ==> s[1..] == x)
      && (|p.sign| == 1 ==> First(s[1..]) == p.sign[0] && s[2..] == x)
  {}

  lemma NumberRead(ds: seq<byte>, t: seq<byte>)
    requires AllDigits(ds) && !IsDigit(First(t))
    ensures NumberOf(ds) >= 0 && Digits(0, ds + t) == (NumberOf(ds), |ds|, t)
  {
    DigitsRead([], ds, t);
    assert [] + ds == ds;
  }

  lemma PowerReads(p: Power, rest: seq<byte>)
    requires PowerOk(p) && EndsNumber(rest)
    ensures Exponent(PowerText(p) + rest) == (PowerOf(p), rest)
    ensures !IsDigit(First(PowerText(p) + rest)) && First(PowerText(p) + rest) != POINT
  {
    if p.Power? {
      PowerParts(p, rest);
      NumberRead(p.digits, rest);
      assert 48 <= p.digits[0] <= 57;
      hide PowerText, Exponent, Digits, NumberOf, AllDigits;
      ExponentSteps(PowerText(p) + rest, p.sign, p.digits + rest);
    } else {
      assert PowerText(p) + rest == rest;
    }
  }

  lemma FractionParts(frac: seq<byte>, t: seq<byte>)
    ensures var s := FracText(frac) + t;
      if frac == [] then s == t else First(s) == 46 && s[1..] == frac + t && First(frac + t) == frac[0]
  {}

  lemma FractionReads(whole: seq<byte>, frac: seq<byte>, t: seq<byte>)
    requires AllDigits(whole) && AllDigits(frac) && !IsDigit(First(t)) && First(t) != POINT && NumberOf(whole) >= 0
    ensures Fraction(NumberOf(whole), FracText(frac) + t) == (NumberOf(whole + frac), |frac|, t)
    ensures !IsDigit(First(FracText(frac) + t))
  {
    FractionParts(frac, t);
    if frac == [] {
      assert whole + frac == whole;
    } else {
      DigitsRead(whole, frac, t);
      assert 48 <= frac[0] <= 57;
    }
    hide FracText, Digits, NumberOf, AllDigits;
  }

  lemma WholeReads(whole: seq<byte>, t: seq<byte>)
    requires whole != [] && AllDigits(whole) && (|whole| > 1 ==> whole[0] != 48) && !IsDigit(First(t))
    ensures var s := whole + t;
      var s2 := if First(s) == ZERO then s[1..] else s;
      IsDigit(First(s)) &&
      (if IsDigit(First(s2)) && First(s2) != ZERO then Digits(0, s2) else (0, 0, s2)) ==
        (NumberOf(whole), if whole[0] == 48 then 0 else |whole|, t)
  {
    var s := whole + t;
    if whole[0] == 48 {
      assert whole == [48] && s[1..] == t;
      assert NumberOf([48]) == 10 * NumberOf([48][..0]);
      assert [48][..0] == [];
    } else {
      DigitsRead([], whole, t);
      assert [] + whole == whole;
    }
  }

  /** The steps of the parser on a number. */
  lemma NumberSteps(s: seq<byte>, minus: bool, w: seq<byte>, f: seq<byte>, p: seq<byte>, rest: seq<byte>, n: nat,
      k: nat, m: nat, scale: nat, e: int)
    requires IsDigit(First(w)) && (if minus then First(s) == MINUS && s[1..] == w else s == w)
    requires var s2 := if First(w) == ZERO then w[1..] else w;
      (if IsDigit(First(s2)) && First(s2) != ZERO then Digits(0, s2) else (0, 0, s2)) == (n, k, f)
    requires Fraction(n, f) == (m, scale, p) && Exponent(p) == (e, rest)
    ensures First(s) == MINUS || IsDigit(First(s))
    ensures ParseNumber(s) == Parsed(Number(if minus then 0 - m else m, e - scale), rest)
  {
    hide Digits, Fraction, Exponent;
  }

  lemma NumText(d: Doc, rest: seq<byte>)
    requires d.Num?
    ensures Text(d) + rest ==
      (if d.minus then [45] else []) + (d.whole + (FracText(d.frac) + (PowerText(d.power) + rest)))
  {
    hide FracText, PowerText;
  }

  lemma NumberStarts(minus: bool, w: seq<byte>)
    ensures var s := (if minus then [45] else []) + w; if minus then First(s) == MINUS && s[1..] == w else s == w
  {}

  lemma PartsRead(d: Doc, rest: seq<byte>, p: seq<byte>, f: seq<byte>, w: seq<byte>)
    requires d.Num? && WellFormed(d) && EndsNumber(rest)
    requires p == PowerText(d.power) + rest && f == FracText(d.frac) + p && w == d.whole + f
    ensures Exponent(p) == (PowerOf(d.power), rest)
    ensures NumberOf(d.whole) >= 0 && Fraction(NumberOf(d.whole), f) == (NumberOf(d.whole + d.frac), |d.frac|, p)
    ensures d.whole != [] && IsDigit(First(w))
    ensures var s2 := if First(w) == ZERO then w[1..] else w;
      (if IsDigit(First(s2)) && First(s2) != ZERO then Digits(0, s2) else (0, 0, s2)) ==
        (NumberOf(d.whole), if d.whole[0] == 48 then 0 else |d.whole|, f)
  {
    NumTree(d);
    hide *;
    PowerReads(d.power, rest);
    NumberNatural(d.whole);
    FractionReads(d.whole, d.frac, p);
    WholeReads(d.whole, f);
  }

  lemma NumberReads(d: Doc, rest: seq<byte>)
    requires d.Num? && WellFormed(d) && EndsNumber(rest)
    ensures First(Text(d) + rest) == MINUS || IsDigit(First(Text(d) + rest))
    ensures ParseNumber(Text(d) + rest) == Parsed(Tree(d), rest)
  {
    var p := PowerText(d.power) + rest;
    var f := FracText(d.frac) + p;
    var w := d.whole + f;
    hide *;
    PartsRead(d, rest, p, f, w);
    NumTree(d);
    NumText(d, rest);
    NumberStarts(d.minus, w);
    SignedReads(Text(d) + rest, d, rest, p, f, w);
  }

  lemma SignedReads(s: seq<byte>, d: Doc, rest: seq<byte>, p: seq<byte>, f: seq<byte>, w: seq<byte>)
    requires d.Num? && WellFormed(d) && d.whole != [] && IsDigit(First(w))
    requires if d.minus then First(s) == MINUS && s[1..] == w else s == w
    requires Exponent(p) == (PowerOf(d.power), rest)
    requires NumberOf(d.whole) >= 0 && Fraction(NumberOf(d.whole), f) == (NumberOf(d.whole + d.frac), |d.frac|, p)
    requires var s2 := if First(w) == ZERO then w[1..] else w;
      (if IsDigit(First(s2)) && First(s2) != ZERO then Digits(0, s2) else (0, 0, s2)) ==
        (NumberOf(d.whole), if d.whole[0] == 48 then 0 else |d.whole|, f)
    ensures First(s) == MINUS || IsDigit(First(s))
    ensures ParseNumber(s) == Parsed(Tree(d), rest)
  {
    NumTree(d);
    hide *;
    NumberSteps(s, d.minus, w, f, p, rest, NumberOf(d.whole), if d.whole[0] == 48 then 0 else |d.whole|,
      NumberOf(d.whole + d.frac), |d.frac|, PowerOf(d.power));
  }

  lemma NumTree(d: Doc)
    requires d.Num? && WellFormed(d)
    ensures d.whole != [] && AllDigits(d.whole) && (|d.whole| > 1 ==> d.whole[0] != 48) && AllDigits(d.frac)
    ensures PowerOk(d.power) && NumberOf(d.whole + d.frac) >= 0
    ensures var m := NumberOf(d.whole + d.frac);
      Tree(d) == Number(if d.minus then 0 - m else m, PowerOf(d.power) - |d.frac|)
  {
    NumberNatural(d.whole + d.frac);
  }

  // ----- strings are read --------------------------------------------------------------------

  lemma HexReads(ds: seq<byte>, rest: seq<byte>)
    requires FourHex(ds)
    ensures HasHex4(ds + rest) && Hex4(ds + rest) == HexNumberOf(ds) && (ds + rest)[4..] == rest
  {
    var s := ds + rest;
    assert s[0] == ds[0] && s[1] == ds[1] && s[2] == ds[2] && s[3] == ds[3];
    hide HexValue, HexFigureOf;
    HexFigureReads(ds[0]);
    HexFigureReads(ds[1]);
    HexFigureReads(ds[2]);
    HexFigureReads(ds[3]);
  }

  lemma HexFigureReads(c: byte)
    requires HexFigure(c)
    ensures IsHex(c) && HexValue(c) == HexFigureOf(c) < 16
  {}

  lemma CodePointReads(u: nat)
    requires u < 0x11_0000
    ensures Utf8(u) == CodePoint(u)
  {}

  lemma PointReads(ds: seq<byte>, rest: seq<byte>)
    requires PieceOk(Point(ds))
    ensures ParseBody([92, 117] + (ds + rest)) == Prepend(CodePoint(HexNumberOf(ds)), ParseBody(rest))
  {
    HexReads(ds, rest);
    hide HexNumberOf, Hex4, HasHex4, CodePoint, Utf8, ParseBody, UnescapeU;
    OneEscape(ds + rest, HexNumberOf(ds), rest);
    CodePointReads(HexNumberOf(ds));
    OpenUnicode(ds + rest);
  }

  lemma PairPoint(high: seq<byte>, low: seq<byte>)
    requires PieceOk(Pair(high, low))
    ensures FourHex(high) && FourHex(low) && HighSurrogate(HexNumberOf(high)) && LowSurrogate(HexNumberOf(low))
    ensures PieceBytes(Pair(high, low)) == Utf8(SurrogatePair(HexNumberOf(high), HexNumberOf(low)))
  {
    hide HexNumberOf, Utf8, CodePoint;
    CodePointReads(SurrogatePair(HexNumberOf(high), HexNumberOf(low)));
  }

  lemma PairReads(high: seq<byte>, low: seq<byte>, rest: seq<byte>)
    requires PieceOk(Pair(high, low))
    ensures ParseBody([92, 117] + (high + ([92, 117] + (low + rest)))) ==
      Prepend(PieceBytes(Pair(high, low)), ParseBody(rest))
  {
    assert BACKSLASH == 92 && LOWER_U == 117;
    hide *;
    var second := low + rest;
    var t := [92, 117] + second;
    PairPoint(high, low);
    HexReads(low, rest);
    HexReads(high, t);
    PairDecodes(high + t, HexNumberOf(high), HexNumberOf(low), rest, t, second);
    OpenUnicode(high + t);
  }

  lemma LetterReads(l: byte, rest: seq<byte>)
    requires PieceOk(Letter(l))
    ensures ParseBody([92, l] + rest) == Prepend(PieceBytes(Letter(l)), ParseBody(rest))
  {
    assert ([92, l] + rest)[1..][1..] == rest;
    hide UnescapeU;
  }

  lemma PlainReads(c: byte, rest: seq<byte>)
    requires PieceOk(Plain(c))
    ensures ParseBody([c] + rest) == Prepend([c], ParseBody(rest))
  {
    assert ([c] + rest)[1..] == rest;
    hide Unescape;
  }

  /** Every piece of a string is decoded to the bytes it stands for. */
  lemma PieceReads(p: Piece, rest: seq<byte>)
    requires PieceOk(p)
    ensures ParseBody(PieceText(p) + rest) == Prepend(PieceBytes(p), ParseBody(rest))
  {
    hide ParseBody, HexNumberOf, CodePoint, PieceOk;
    match p {
      case Plain(c) => PlainReads(c, rest);
      case Letter(l) => LetterReads(l, rest);
      case Point(ds) =>
        assert PieceText(p) + rest == [92, 117] + (ds + rest);
        PointReads(ds, rest);
      case Pair(high, low) =>
        assert PieceText(p) + rest == [92, 117] + (high + ([92, 117] + (low + rest)));
        PairReads(high, low, rest);
    }
  }

  lemma OneCounts(c: byte, s: seq<byte>)
    requires c != QUOTE && c != BACKSLASH
    ensures BodyCount([c] + s) == 1 + BodyCount(s) && (CountsInside([c] + s) <==> CountsInside(s))
  {
    assert ([c] + s)[1..] == s;
  }

  lemma EscapeCounts(l: byte, s: seq<byte>)
    ensures BodyCount([92, l] + s) == 1 + BodyCount(s) && (CountsInside([92, l] + s) <==> CountsInside(s))
  {
    assert ([92, l] + s)[2..] == s;
  }

  lemma FourCount(ds: seq<byte>, s: seq<byte>)
    requires FourHex(ds)
    ensures BodyCount(ds + s) == 4 + BodyCount(s) && (CountsInside(ds + s) <==> CountsInside(s))
  {
    var d := [ds[3]] + s;
    var c := [ds[2]] + d;
    var b := [ds[1]] + c;
    assert ds + s == [ds[0]] + b;
    OneCounts(ds[3], s);
    OneCounts(ds[2], d);
    OneCounts(ds[1], c);
    OneCounts(ds[0], b);
  }

  /** A piece is counted as at least as many characters as it stands for. */
  lemma PieceCounts(p: Piece, rest: seq<byte>)
    requires PieceOk(p)
    ensures var s := PieceText(p) + rest;
      BodyCount(s) >= |PieceBytes(p)| + BodyCount(rest) && (CountsInside(s) <==> CountsInside(rest))
  {
    hide BodyCount, CountsInside, HexNumberOf;
    match p {
      case Plain(c) => OneCounts(c, rest);
      case Letter(l) => EscapeCounts(l, rest);
      case Point(ds) =>
        assert PieceText(p) + rest == [92, 117] + (ds + rest);
        EscapeCounts(117, ds + rest);
        FourCount(ds, rest);
      case Pair(high, low) =>
        var t := [92, 117] + (low + rest);
        assert PieceText(p) + rest == [92, 117] + (high + t);
        EscapeCounts(117, high + t);
        FourCount(high, t);
        EscapeCounts(117, low + rest);
        FourCount(low, rest);
    }
  }

  lemma FirstPiece(ps: seq<Piece>, end: seq<byte>)
    requires ps != [] && PiecesOk(ps)
    ensures PiecesText(ps) + end == PieceText(ps[0]) + (PiecesText(ps[1..]) + end)
    ensures PieceOk(ps[0]) && PiecesOk(ps[1..]) && PiecesBytes(ps) == PieceBytes(ps[0]) + PiecesBytes(ps[1..])
  {
    hide PieceText, PieceBytes;
  }

  lemma NoPiece(rest: seq<byte>)
    ensures var s := PiecesText([]) + ([34] + rest);
      ParseBody(s) == Parsed([], rest) && CountsInside(s) && BodyCount(s) == 0
  {
    assert PiecesText([]) + ([34] + rest) == [34] + rest && ([34] + rest)[1..] == rest;
  }

  lemma {:induction false} PiecesRead(ps: seq<Piece>, rest: seq<byte>)
    requires PiecesOk(ps)
    ensures var s := PiecesText(ps) + ([34] + rest);
      ParseBody(s) == Parsed(PiecesBytes(ps), rest) && CountsInside(s) && BodyCount(s) >= |PiecesBytes(ps)|
  {
    if ps == [] {
      NoPiece(rest);
    } else {
      FirstPiece(ps, [34] + rest);
      hide ParseBody, CountsInside, BodyCount, PieceText, PiecesText, PieceBytes, PiecesBytes, PieceOk, PiecesOk;
      var t := PiecesText(ps[1..]) + ([34] + rest);
      PiecesRead(ps[1..], rest);
      PieceReads(ps[0], t);
      PieceCounts(ps[0], t);
    }
  }

  lemma Quoted(x: seq<byte>, rest: seq<byte>)
    ensures var s := ([34] + x + [34]) + rest; First(s) == QUOTE && s[1..] == x + ([34] + rest)
  {}

  lemma StringSteps(s: seq<byte>, bytes: seq<byte>, rest: seq<byte>)
    requires First(s) == QUOTE && ParseBody(s[1..]) == Parsed(bytes, rest)
    requires CountsInside(s[1..]) && BodyCount(s[1..]) >= |bytes|
    ensures ParseString(s) == Parsed(bytes, rest)
  {
    hide ParseBody, CountsInside, BodyCount;
  }

  /** Every way to write a string is read as the string. */
  lemma StringReads(ps: seq<Piece>, rest: seq<byte>)
    requires PiecesOk(ps)
    ensures ParseString(([34] + PiecesText(ps) + [34]) + rest) == Parsed(PiecesBytes(ps), rest)
  {
    hide *;
    PiecesRead(ps, rest);
    Quoted(PiecesText(ps), rest);
    StringSteps(([34] + PiecesText(ps) + [34]) + rest, PiecesBytes(ps), rest);
  }
}
