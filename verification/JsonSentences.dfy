/** The parser reads every sentence of the JSON grammar as the value it stands for, and the printer
    writes sentences. */
module JsonSentences {
  import opened Options
  import opened Sequences
  import opened JsonSpec
  import opened JsonGrammar

  // ----- values are read ---------------------------------------------------------------------

  lemma WhiteSkips(w: seq<byte>, s: seq<byte>)
    requires White(w) && (s == [] || First(s) > 32)
    ensures Skip(w + s) == s
  {
    SkipBlanks(w, s);
  }

  /** The first byte of a value. */
  lemma TextStarts(d: Doc, rest: seq<byte>)
    requires WellFormed(d)
    ensures Text(d) != [] && First(Text(d) + rest) > 32 && First(Text(d) + rest) != 93
  {
    if d.Num? {
      assert 48 <= d.whole[0] <= 57;
      assert Text(d) != [] && Text(d)[0] == if d.minus then 45 else d.whole[0];
    }
  }

  /** What follows a value in an array or an object does not continue a number. */
  lemma WhiteEnds(w: seq<byte>, c: byte, s: seq<byte>)
    requires White(w) && (c == 44 || c == 93 || c == 125)
    ensures EndsNumber(w + ([c] + s)) && Skip(w + ([c] + s)) == [c] + s
  {
    var t := w + ([c] + s);
    assert First(t) == if w == [] then c else w[0];
    WhiteSkips(w, [c] + s);
  }

  lemma WordReads(d: Doc, rest: seq<byte>)
    requires d.NullDoc? || d.FalseDoc? || d.TrueDoc?
    ensures ParseValue(Text(d) + rest) == Parsed(Tree(d), rest)
  {
    var s := Text(d) + rest;
    assert s[0] == Text(d)[0] && s[|Text(d)|..] == rest;
  }

  lemma NumValue(d: Doc, rest: seq<byte>)
    requires d.Num? && WellFormed(d) && EndsNumber(rest)
    ensures ParseValue(Text(d) + rest) == Parsed(Tree(d), rest)
  {
    NumberReads(d, rest);
    hide Text, Tree, WellFormed, ParseNumber;
  }

  lemma StrValue(ps: seq<Piece>, rest: seq<byte>)
    requires PiecesOk(ps)
    ensures ParseValue(Text(Str(ps)) + rest) == Parsed(String(PiecesBytes(ps)), rest)
  {
    StringReads(ps, rest);
    hide ParseString, PiecesText, PiecesBytes;
    assert First(Text(Str(ps)) + rest) == QUOTE;
  }

  /** The steps of the parser on an array. */
  lemma ArrayOpens(body: seq<byte>)
    ensures var r, v := ParseValue([91] + body), Skip(body);
      if First(v) == CLOSE_BRACKET then r == Parsed(Array([]), v[1..])
      else ParseItems(body).Parsed? ==> r == Parsed(Array(ParseItems(body).value), ParseItems(body).rest)
  {
    assert ([91] + body)[1..] == body && ([91] + body)[0] == 91;
    SkipTwice(body);
    hide ParseMembers, Skip, ParseString, ParseNumber, ParseItems;
    ItemsSkip(body);
  }

  lemma ItemsSkip(s: seq<byte>)
    ensures ParseItems(Skip(s)) == ParseItems(s)
  {
    SkipTwice(s);
    hide Skip;
  }

  lemma ObjectOpens(body: seq<byte>)
    ensures var r, v := ParseValue([123] + body), Skip(body);
      if First(v) == CLOSE_BRACE then r == Parsed(Object([]), v[1..])
      else ParseMembers(body).Parsed? ==> r == Parsed(Object(ParseMembers(body).value), ParseMembers(body).rest)
  {
    assert ([123] + body)[1..] == body && ([123] + body)[0] == 123;
    ParseMembersSkipped(body);
    hide ParseItems, Skip, ParseString, ParseNumber, ParseMembers;
  }

  lemma EmptyText(d: Doc, rest: seq<byte>)
    ensures d.EmptyArr? ==> Text(d) + rest == [91] + (d.blank + ([93] + rest))
    ensures d.EmptyObj? ==> Text(d) + rest == [123] + (d.blank + ([125] + rest))
  {}

  lemma EmptyReads(d: Doc, rest: seq<byte>)
    requires (d.EmptyArr? || d.EmptyObj?) && WellFormed(d)
    ensures ParseValue(Text(d) + rest) == Parsed(Tree(d), rest)
  {
    assert CLOSE_BRACE == 125 && CLOSE_BRACKET == 93 && White(d.blank);
    assert Tree(d) == if d.EmptyArr? then Array([]) else Object([]);
    hide *;
    EmptyText(d, rest);
    if d.EmptyArr? {
      WhiteEnds(d.blank, 93, rest);
      Cons(93, rest);
      ArrayOpens(d.blank + ([93] + rest));
    } else {
      WhiteEnds(d.blank, 125, rest);
      Cons(125, rest);
      ObjectOpens(d.blank + ([125] + rest));
    }
  }

  lemma Nest(a: seq<byte>, b: seq<byte>, c: seq<byte>, x: seq<byte>, end: seq<byte>)
    ensures (a + (b + (c + x))) + end == a + (b + (c + (x + end)))
  {}

  lemma Follow(more: bool, x: seq<byte>, end: seq<byte>)
    ensures (if more then [44] + x else []) + end == if more then [44] + (x + end) else end
  {}

  /** The first item and what follows it. */
  lemma FirstItem(items: seq<Item>, end: seq<byte>)
    requires items != []
    ensures var i := items[0];
      ItemsText(items) + end == i.before + (Text(i.doc) + (i.after +
        (if |items| > 1 then [44] + (ItemsText(items[1..]) + end) else end)))
  {
    var i, x := items[0], if |items| > 1 then ItemsText(items[1..]) else [];
    var m := if |items| > 1 then [44] + x else [];
    assert ItemsText(items) == i.before + (Text(i.doc) + (i.after + m));
    hide *;
    Nest(i.before, Text(i.doc), i.after, m, end);
    Follow(|items| > 1, x, end);
  }

  lemma FirstItemOk(items: seq<Item>)
    requires items != [] && ItemsOk(items)
    ensures var i := items[0];
      White(i.before) && WellFormed(i.doc) && White(i.after) && ItemsOk(items[1..])
      && ItemsTree(items) == [Tree(i.doc)] + ItemsTree(items[1..]) && (|items| == 1 ==> items[1..] == [])
  {}

  lemma {:induction false} ItemsRead(items: seq<Item>, rest: seq<byte>)
    requires items != [] && ItemsOk(items)
    ensures var s := ItemsText(items) + ([93] + rest);
      ParseItems(s) == Parsed(ItemsTree(items), rest) && First(Skip(s)) != 93
    decreases items, 1
  {
    FirstItemOk(items);
    FirstItem(items, [93] + rest);
    assert COMMA == 44 && CLOSE_BRACKET == 93;
    hide *;
    var i := items[0];
    var s := ItemsText(items) + ([93] + rest);
    var more := ItemsText(items[1..]) + ([93] + rest);
    var tail := if |items| > 1 then [44] + more else [93] + rest;
    var after := i.after + tail;
    if |items| > 1 {
      WhiteEnds(i.after, 44, more);
      ItemsRead(items[1..], rest);
      Cons(44, more);
    } else {
      WhiteEnds(i.after, 93, rest);
      Cons(93, rest);
      NoItems();
      assert ItemsTree(items) == [Tree(i.doc)];
    }
    TextStarts(i.doc, after);
    WhiteSkips(i.before, Text(i.doc) + after);
    ValueReads(i.doc, after);
    ParseItemsSteps(s, Tree(i.doc), after);
  }

  lemma NoItems()
    ensures ItemsTree([]) == [] && FieldsTree([]) == []
  {}

  /** The steps of the parser on a member. */
  lemma MemberSteps(s: seq<byte>, name: seq<byte>, rest: seq<byte>, x: seq<byte>)
    requires ParseString(s) == Parsed(name, rest) && Skip(rest) == [58] + x && ParseValue(Skip(x)).Parsed?
    ensures ParseMember(s) == Parsed(Member(name, ParseValue(Skip(x)).value), ParseValue(Skip(x)).rest)
  {
    hide ParseString, ParseValue, Skip;
    Cons(58, x);
  }

  lemma FirstField(fields: seq<Field>, end: seq<byte>)
    requires fields != []
    ensures var f := fields[0];
      FieldsText(fields) + end ==
        f.before + (([34] + PiecesText(f.name) + [34]) + (f.mid + ([58] + (f.colon + (Text(f.doc) + (f.after +
          (if |fields| > 1 then [44] + (FieldsText(fields[1..]) + end) else end)))))))
  {
    var f, x := fields[0], if |fields| > 1 then FieldsText(fields[1..]) else [];
    var m := if |fields| > 1 then [44] + x else [];
    var q := [34] + PiecesText(f.name) + [34];
    var tail := Text(f.doc) + (f.after + m);
    assert FieldsText(fields) == f.before + (q + (f.mid + ([58] + (f.colon + tail))));
    hide *;
    Follow(|fields| > 1, x, end);
    Associative(f.before, q + (f.mid + ([58] + (f.colon + tail))), end);
    Associative(q, f.mid + ([58] + (f.colon + tail)), end);
    Associative(f.mid, [58] + (f.colon + tail), end);
    Associative([58], f.colon + tail, end);
    Associative(f.colon, tail, end);
    Associative(Text(f.doc), f.after + m, end);
    Associative(f.after, m, end);
  }

  lemma FirstFieldOk(fields: seq<Field>)
    requires fields != [] && FieldsOk(fields)
    ensures var f := fields[0];
      && White(f.before) && PiecesOk(f.name) && White(f.mid) && White(f.colon) && WellFormed(f.doc) && White(f.after)
      && FieldsOk(fields[1..]) && (|fields| == 1 ==> fields[1..] == [])
      && FieldsTree(fields) == [Member(PiecesBytes(f.name), Tree(f.doc))] + FieldsTree(fields[1..])
  {}

  lemma QuoteStarts(ps: seq<Piece>, rest: seq<byte>)
    ensures First(([34] + PiecesText(ps) + [34]) + rest) == 34
  {}

  lemma ColonSkips(w: seq<byte>, s: seq<byte>)
    requires White(w)
    ensures Skip(w + ([58] + s)) == [58] + s
  {
    WhiteSkips(w, [58] + s);
  }

  lemma {:induction false} FieldReads(f: Field, after: seq<byte>)
    requires White(f.mid) && White(f.colon) && PiecesOk(f.name) && WellFormed(f.doc) && EndsNumber(after)
    ensures var s := ([34] + PiecesText(f.name) + [34]) + (f.mid + ([58] + (f.colon + (Text(f.doc) + after))));
      ParseMember(s) == Parsed(Member(PiecesBytes(f.name), Tree(f.doc)), after) && First(s) == 34
    decreases f, 0
  {
    hide *;
    var x := f.colon + (Text(f.doc) + after);
    var rest := f.mid + ([58] + x);
    var s := ([34] + PiecesText(f.name) + [34]) + rest;
    StringReads(f.name, rest);
    QuoteStarts(f.name, rest);
    ColonSkips(f.mid, x);
    TextStarts(f.doc, after);
    WhiteSkips(f.colon, Text(f.doc) + after);
    ValueReads(f.doc, after);
    MemberSteps(s, PiecesBytes(f.name), rest, x);
  }

  lemma {:induction false} FieldsRead(fields: seq<Field>, rest: seq<byte>)
    requires fields != [] && FieldsOk(fields)
    ensures var s := FieldsText(fields) + ([125] + rest);
      ParseMembers(s) == Parsed(FieldsTree(fields), rest) && First(Skip(s)) != 125
    decreases fields, 1
  {
    FirstFieldOk(fields);
    FirstField(fields, [125] + rest);
    assert COMMA == 44 && CLOSE_BRACE == 125;
    hide *;
    var f := fields[0];
    var s := FieldsText(fields) + ([125] + rest);
    var more := FieldsText(fields[1..]) + ([125] + rest);
    var tail := if |fields| > 1 then [44] + more else [125] + rest;
    var after := f.after + tail;
    if |fields| > 1 {
      WhiteEnds(f.after, 44, more);
      FieldsRead(fields[1..], rest);
      Cons(44, more);
    } else {
      WhiteEnds(f.after, 125, rest);
      Cons(125, rest);
      NoItems();
      assert FieldsTree(fields) == [Member(PiecesBytes(f.name), Tree(f.doc))];
    }
    var q := ([34] + PiecesText(f.name) + [34]) + (f.mid + ([58] + (f.colon + (Text(f.doc) + after))));
    FieldReads(f, after);
    WhiteSkips(f.before, q);
    ParseMembersSteps(s, Member(PiecesBytes(f.name), Tree(f.doc)), after);
  }

  lemma ArrText(items: seq<Item>, rest: seq<byte>)
    ensures Text(Arr(items)) + rest == [91] + (ItemsText(items) + ([93] + rest))
  {}

  lemma ObjText(fields: seq<Field>, rest: seq<byte>)
    ensures Text(Obj(fields)) + rest == [123] + (FieldsText(fields) + ([125] + rest))
  {}

  lemma ArrTree(d: Doc)
    requires WellFormed(d) && (d.Arr? || d.Obj?)
    ensures d.Arr? ==> d.items != [] && ItemsOk(d.items) && Tree(d) == Array(ItemsTree(d.items))
    ensures d.Obj? ==> d.fields != [] && FieldsOk(d.fields) && Tree(d) == Object(FieldsTree(d.fields))
  {}

  /** Every way to write a value is read as the value, whatever follows it, if that does not
      continue a number. */
  lemma {:induction false} ValueReads(d: Doc, rest: seq<byte>)
    requires WellFormed(d) && EndsNumber(rest)
    ensures ParseValue(Text(d) + rest) == Parsed(Tree(d), rest)
    decreases d, 2
  {
    if d.Num? {
      NumValue(d, rest);
    } else if d.Str? {
      StrValue(d.pieces, rest);
    } else if d.EmptyArr? || d.EmptyObj? {
      EmptyReads(d, rest);
    } else if d.Arr? || d.Obj? {
      ArrTree(d);
      assert CLOSE_BRACE == 125 && CLOSE_BRACKET == 93;
      hide *;
      if d.Arr? {
        ArrText(d.items, rest);
        ItemsRead(d.items, rest);
        ArrayOpens(ItemsText(d.items) + ([93] + rest));
      } else {
        ObjText(d.fields, rest);
        FieldsRead(d.fields, rest);
        ObjectOpens(FieldsText(d.fields) + ([125] + rest));
      }
    } else {
      WordReads(d, rest);
    }
  }

  /** A JSON text: a value with white space before and after it. */
  lemma TextReads(before: seq<byte>, d: Doc, after: seq<byte>)
    requires White(before) && WellFormed(d) && White(after)
    ensures Parse(before + (Text(d) + after)) == Parsed(Tree(d), after)
  {
    assert EndsNumber(after);
    hide Text, Tree, WellFormed;
    TextStarts(d, after);
    WhiteSkips(before, Text(d) + after);
    ValueReads(d, after);
  }

  /** If the text starts with a way to write a value, the result is that value and what follows. */
  ghost predicate ReadsSentences(text: seq<byte>, r: Parsed<Json>) {
    forall d, rest :: WellFormed(d) && EndsNumber(rest) && text == Text(d) + rest ==> r == Parsed(Tree(d), rest)
  }

  lemma ParserReads(text: seq<byte>)
    ensures ReadsSentences(text, ParseValue(text))
  {
    hide Text, Tree, WellFormed, ParseValue;
    forall d, rest | WellFormed(d) && EndsNumber(rest) && text == Text(d) + rest
      ensures ParseValue(text) == Parsed(Tree(d), rest)
    {
      ValueReads(d, rest);
    }
  }

  /** A text is a way to write one value at most. */
  lemma OneTree(s: seq<byte>, j: Json, k: Json)
    requires Sentence(s, j) && Sentence(s, k)
    ensures j == k
  {
    var c :| WellFormed(c) && Text(c) == s && Tree(c) == j;
    var d :| WellFormed(d) && Text(d) == s && Tree(d) == k;
    hide *;
    EndsAtEnd();
    ValueReads(c, []);
    ValueReads(d, []);
  }

  lemma EndsAtEnd()
    ensures EndsNumber([])
  {}

  // ----- what the printer writes -------------------------------------------------------------

  function Nines(n: int): seq<byte> {
    seq(if n < 0 then 0 else n, _ => 9)
  }

  /** How the two printers lay a value out: no white space at all, or a space after the comma of an
      item, and every member on a line of its own, behind as many tabs as it is deep, with a tab after
      its colon. */
  predicate Laid(d: Doc, depth: nat, fmt: bool) {
    match d
    case Num(_, _, frac, power) => frac == [] && power == NoPower
    case EmptyArr(w) => w == []
    case Arr(items) => ItemsLaid(items, depth, fmt, true)
    case EmptyObj(w) => w == if fmt then [10] + Nines(depth - 1) else []
    case Obj(fields) => FieldsLaid(fields, depth, fmt)
    case _ => true
  }

  predicate ItemsLaid(items: seq<Item>, depth: nat, fmt: bool, first: bool) {
    items == [] ||
    (items[0].before == (if fmt && !first then [32] else []) && items[0].after == []
     && Laid(items[0].doc, depth + 1, fmt) && ItemsLaid(items[1..], depth, fmt, false))
  }

  predicate FieldsLaid(fields: seq<Field>, depth: nat, fmt: bool) {
    fields == [] ||
    var f := fields[0];
    && f.before == (if fmt then [10] + Nines(depth + 1) else [])
    && f.mid == [] && f.colon == (if fmt then [9] else [])
    && f.after == (if fmt && |fields| == 1 then [10] + Nines(depth) else [])
    && Laid(f.doc, depth + 1, fmt) && FieldsLaid(fields[1..], depth, fmt)
  }

  /** The bytes are the value as the printer lays it out. */
  ghost predicate Layout(s: seq<byte>, j: Json, depth: nat, fmt: bool) {
    exists d :: WellFormed(d) && Text(d) == s && Tree(d) == j && Laid(d, depth, fmt)
  }

  function PieceOf(c: byte): Piece {
    if c > 31 && c != 34 && c != 92 then Plain(c)
    else if EscapeLetter(c) != 0 then Letter(EscapeLetter(c))
    else Point([48, 48, HexDigit(c / 16), HexDigit(c % 16)])
  }

  function PiecesOf(t: seq<byte>): seq<Piece> {
    if t == [] then [] else [PieceOf(t[0])] + PiecesOf(t[1..])
  }

  lemma ControlPoint(c: byte)
    requires 0 < c <= 31
    ensures var ds: seq<byte> := [48, 48, HexDigit(c / 16), HexDigit(c % 16)];
      FourHex(ds) && HexNumberOf(ds) == c && CodePoint(c) == [c]
  {}

  lemma PieceWrites(c: byte)
    requires c != 0
    ensures PieceOk(PieceOf(c)) && PieceText(PieceOf(c)) == Escape(c) && PieceBytes(PieceOf(c)) == [c]
  {
    if c <= 31 {
      ControlPoint(c);
      hide HexNumberOf, CodePoint, HexDigit;
    }
  }

  lemma {:induction false} PiecesWrite(t: seq<byte>)
    requires NulFree(t)
    ensures PiecesOk(PiecesOf(t)) && PiecesText(PiecesOf(t)) == EscapeAll(t) && PiecesBytes(PiecesOf(t)) == t
  {
    if t != [] {
      PieceWrites(t[0]);
      PiecesWrite(t[1..]);
      hide Escape, PieceOf, PieceText, PieceBytes, PieceOk;
      assert PiecesOf(t)[1..] == PiecesOf(t[1..]);
      assert t == [t[0]] + t[1..];
    }
  }

  lemma {:induction false} DecimalWrites(n: nat)
    ensures var ds := Decimal(n); AllDigits(ds) && NumberOf(ds) == n && (|ds| > 1 ==> ds[0] != 48)
  {
    var ds := Decimal(n);
    if n < 10 {
      assert ds[..0] == [];
    } else {
      DecimalWrites(n / 10);
      assert ds[..|ds| - 1] == Decimal(n / 10);
    }
  }

  function DocOf(j: Json, depth: nat, fmt: bool): Doc
    decreases j
  {
    match j
    case Null => NullDoc
    case False => FalseDoc
    case True => TrueDoc
    case Number(m, _) => Num(m < 0, Decimal(if m < 0 then -m else m), [], NoPower)
    case String(t) => Str(PiecesOf(t))
    case Array(items) => if items == [] then EmptyArr([]) else Arr(ItemsOf(items, depth, fmt, true))
    case Object(members) =>
      if members == [] then EmptyObj(NewLine(fmt) + Indent(depth - 1, fmt)) else Obj(FieldsOf(members, depth, fmt))
  }

  function ItemsOf(items: seq<Json>, depth: nat, fmt: bool, first: bool): seq<Item>
    decreases items
  {
    if items == [] then []
    else
      [Item(if fmt && !first then [32] else [], DocOf(items[0], depth + 1, fmt), [])] +
      ItemsOf(items[1..], depth, fmt, false)
  }

  function FieldsOf(members: seq<Member>, depth: nat, fmt: bool): seq<Field>
    decreases members
  {
    if members == [] then []
    else
      var m := members[0];
      [Field(NewLine(fmt) + Indent(depth + 1, fmt), PiecesOf(m.name), [], if fmt then [9] else [],
        DocOf(m.value, depth + 1, fmt), if |members| == 1 then NewLine(fmt) + Indent(depth, fmt) else [])] +
      FieldsOf(members[1..], depth, fmt)
  }

  lemma {:induction false} TabsAreNines(n: int)
    ensures Tabs(n) == Nines(n) && White(Nines(n))
  {
    if n > 0 {
      TabsAreNines(n - 1);
      assert Nines(n) == [9] + Nines(n - 1);
    }
  }

  /** What a derivation writes, stands for and looks like. */
  ghost predicate Writes(d: Doc, j: Json, depth: nat, fmt: bool) {
    WellFormed(d) && Text(d) == Print(j, depth, fmt) && Tree(d) == j && Laid(d, depth, fmt)
  }

  lemma Nothing(x: seq<byte>)
    ensures [] + x == x && x + [] == x
  {}

  lemma NumberText(minus: bool, ds: seq<byte>)
    ensures Text(Num(minus, ds, [], NoPower)) == (if minus then [45] else []) + ds
  {
    assert FracText([]) + PowerText(NoPower) == [];
    assert ds + [] == ds;
  }

  lemma NumberTree(minus: bool, ds: seq<byte>)
    requires AllDigits(ds) && ds != [] && (|ds| > 1 ==> ds[0] != 48)
    ensures var d := Num(minus, ds, [], NoPower);
      WellFormed(d) && Tree(d) == Number(if minus then 0 - NumberOf(ds) else NumberOf(ds), 0)
  {
    assert AllDigits([]) && ds + [] == ds;
    hide NumberOf, AllDigits;
  }

  lemma NumberDoc(minus: bool, ds: seq<byte>, n: nat)
    requires AllDigits(ds) && ds != [] && NumberOf(ds) == n && (|ds| > 1 ==> ds[0] != 48)
    ensures var d := Num(minus, ds, [], NoPower);
      WellFormed(d) && Text(d) == (if minus then [45] else []) + ds && Tree(d) == Number(if minus then 0 - n else n, 0)
  {
    hide *;
    NumberText(minus, ds);
    NumberTree(minus, ds);
  }

  lemma NumberIs(m: int, n: nat, depth: nat, fmt: bool)
    requires n == if m < 0 then -m else m
    ensures DocOf(Number(m, 0), depth, fmt) == Num(m < 0, Decimal(n), [], NoPower)
    ensures Print(Number(m, 0), depth, fmt) == (if m < 0 then [45] else []) + Decimal(n)
    ensures Laid(Num(m < 0, Decimal(n), [], NoPower), depth, fmt)
  {
    Nothing(Decimal(n));
    hide Decimal;
  }

  lemma NumberWrites(m: int, depth: nat, fmt: bool)
    ensures Writes(DocOf(Number(m, 0), depth, fmt), Number(m, 0), depth, fmt)
  {
    var n: nat := if m < 0 then -m else m;
    DecimalWrites(n);
    NumberDoc(m < 0, Decimal(n), n);
    NumberIs(m, n, depth, fmt);
    hide Decimal, NumberOf, AllDigits, Text, Tree, WellFormed, Laid, DocOf, Print;
  }

  lemma StringWrites(t: seq<byte>, depth: nat, fmt: bool)
    requires NulFree(t)
    ensures Writes(DocOf(String(t), depth, fmt), String(t), depth, fmt)
  {
    PiecesWrite(t);
    hide EscapeAll, PiecesText, PiecesBytes, PiecesOf, PiecesOk;
    var d := Str(PiecesOf(t));
    assert DocOf(String(t), depth, fmt) == d && Text(d) == [34] + PiecesText(d.pieces) + [34];
  }

  lemma LeafWrites(j: Json, depth: nat, fmt: bool)
    requires Printable(j) && !j.Array? && !j.Object?
    ensures Writes(DocOf(j, depth, fmt), j, depth, fmt)
  {
    match j {
      case Number(m, _) => NumberWrites(m, depth, fmt);
      case String(t) => StringWrites(t, depth, fmt);
      case _ =>
    }
  }

  lemma EmptyArrWrites(depth: nat, fmt: bool)
    ensures Writes(DocOf(Array([]), depth, fmt), Array([]), depth, fmt)
  {
    assert [91] + [] + [93] == [91, 93];
  }

  lemma EmptyObjWrites(depth: nat, fmt: bool)
    ensures Writes(DocOf(Object([]), depth, fmt), Object([]), depth, fmt)
  {
    LineIs(depth - 1, fmt);
    hide Nines, NewLine, Indent;
    var a, b := NewLine(fmt), Indent(depth - 1, fmt);
    var d := EmptyObj(a + b);
    assert DocOf(Object([]), depth, fmt) == d && White(d.blank);
    hide White;
    assert [123] + (a + b) + [125] == [123] + a + b + [125];
  }

  lemma LineIs(n: int, fmt: bool)
    ensures NewLine(fmt) + Indent(n, fmt) == (if fmt then [10] + Nines(n) else [])
    ensures White(NewLine(fmt) + Indent(n, fmt))
  {
    TabsAreNines(n);
    hide Tabs, Nines;
  }

  lemma {:induction false} ItemsWrite(items: seq<Json>, depth: nat, fmt: bool, first: bool)
    requires items != [] && forall i :: 0 <= i < |items| ==> Printable(items[i])
    ensures var ds := ItemsOf(items, depth, fmt, first);
      && |ds| == |items| && ItemsOk(ds) && ItemsTree(ds) == items && ItemsLaid(ds, depth, fmt, first)
      && ItemsText(ds) == (if fmt && !first then [32] else []) + PrintItems(items, depth, fmt)
    decreases items, 1
  {
    var ds, rest := ItemsOf(items, depth, fmt, first), items[1..];
    ValueWrites(items[0], depth + 1, fmt);
    assert ds[1..] == ItemsOf(rest, depth, fmt, false);
    if rest != [] {
      ItemsWrite(rest, depth, fmt, false);
    } else {
      assert ds == [ds[0]] && items == [items[0]];
    }
    ItemsJoin(ds, items, depth, fmt, first);
  }

  lemma ItemsJoin(ds: seq<Item>, items: seq<Json>, depth: nat, fmt: bool, first: bool)
    requires items != [] && |ds| == |items|
    requires ds[0].before == (if fmt && !first then [32] else []) && ds[0].after == []
    requires Writes(ds[0].doc, items[0], depth + 1, fmt)
    requires var es, rest := ds[1..], items[1..];
      && ItemsOk(es) && ItemsTree(es) == rest && ItemsLaid(es, depth, fmt, false)
      && (rest != [] ==> ItemsText(es) == (if fmt then [32] else []) + PrintItems(rest, depth, fmt))
    ensures ItemsOk(ds) && ItemsTree(ds) == items && ItemsLaid(ds, depth, fmt, first)
    ensures ItemsText(ds) == (if fmt && !first then [32] else []) + PrintItems(items, depth, fmt)
  {
    assert items == [items[0]] + items[1..];
    ItemsJoinText(ds, items, depth, fmt);
    hide Print, Text, Tree, WellFormed, Laid, ItemsText, PrintItems;
  }

  lemma ItemsJoinText(ds: seq<Item>, items: seq<Json>, depth: nat, fmt: bool)
    requires items != [] && |ds| == |items| && ds[0].after == [] && Text(ds[0].doc) == Print(items[0], depth + 1, fmt)
    requires |items| > 1 ==> ItemsText(ds[1..]) == (if fmt then [32] else []) + PrintItems(items[1..], depth, fmt)
    ensures ItemsText(ds) == ds[0].before + PrintItems(items, depth, fmt)
  {
    var t, w := Text(ds[0].doc), ds[0].before;
    var more := if |items| > 1 then [44] + ItemsText(ds[1..]) else [];
    var x := if |items| > 1 then PrintItems(items[1..], depth, fmt) else [];
    assert ItemsText(ds) == w + (t + ([] + more));
    assert PrintItems(items, depth, fmt) == t + Separator(|items| > 1, fmt) + x;
    SeparatorIs(fmt);
    hide *;
    Nothing(more);
    Nothing(t);
    if |items| > 1 {
      var blank: seq<byte> := if fmt then [32] else [];
      Associative([44], blank, x);
      Associative(t, [44] + blank, x);
    }
  }

  lemma SeparatorIs(fmt: bool)
    ensures Separator(true, fmt) == [44] + (if fmt then [32] else []) && Separator(false, fmt) == []
  {}

  /** The first member is laid out, written and named as it should be. */
  ghost predicate FieldWrites(f: Field, m: Member, depth: nat, fmt: bool, last: bool) {
    && f.before == NewLine(fmt) + Indent(depth + 1, fmt) && White(f.before) && f.mid == []
    && f.before == (if fmt then [10] + Nines(depth + 1) else [])
    && f.colon == (if fmt then [9] else []) && Writes(f.doc, m.value, depth + 1, fmt)
    && f.after == (if last then NewLine(fmt) + Indent(depth, fmt) else []) && White(f.after)
    && f.after == (if fmt && last then [10] + Nines(depth) else [])
    && PiecesOk(f.name) && PiecesText(f.name) == EscapeAll(m.name) && PiecesBytes(f.name) == m.name
  }

  lemma FirstFieldWrites(members: seq<Member>, depth: nat, fmt: bool)
    requires members != [] && NulFree(members[0].name)
    requires Writes(DocOf(members[0].value, depth + 1, fmt), members[0].value, depth + 1, fmt)
    ensures var ds := FieldsOf(members, depth, fmt);
      ds != [] && FieldWrites(ds[0], members[0], depth, fmt, |members| == 1)
      && ds[1..] == FieldsOf(members[1..], depth, fmt)
  {
    PiecesWrite(members[0].name);
    LineIs(depth + 1, fmt);
    LineIs(depth, fmt);
    hide Writes, PiecesOf, PiecesText, PiecesBytes, PiecesOk, DocOf, NewLine, Indent, Nines, EscapeAll;
    assert White([]);
    hide White;
  }

  lemma {:induction false} FieldsWrite(members: seq<Member>, depth: nat, fmt: bool)
    requires members != []
    requires forall i :: 0 <= i < |members| ==> NulFree(members[i].name) && Printable(members[i].value)
    ensures var ds := FieldsOf(members, depth, fmt);
      && |ds| == |members| && FieldsOk(ds) && FieldsTree(ds) == members && FieldsLaid(ds, depth, fmt)
      && FieldsText(ds) == NewLine(fmt) + (PrintMembers(members, depth + 1, fmt) + Indent(depth, fmt))
    decreases members, 1
  {
    var ds, rest := FieldsOf(members, depth, fmt), members[1..];
    ValueWrites(members[0].value, depth + 1, fmt);
    FirstFieldWrites(members, depth, fmt);
    if rest != [] {
      FieldsWrite(rest, depth, fmt);
    } else {
      NoFields(ds[1..], depth, fmt);
    }
    hide FieldWrites, FieldsOk, FieldsTree, FieldsLaid, FieldsText, PrintMembers, NewLine, Indent, Printable, Writes;
    FieldsJoin(ds, members, depth, fmt);
  }

  lemma NoFields(ds: seq<Field>, depth: nat, fmt: bool)
    requires ds == FieldsOf([], depth, fmt)
    ensures ds == [] && FieldsOk(ds) && FieldsTree(ds) == [] && FieldsLaid(ds, depth, fmt)
  {}

  lemma FieldsJoin(ds: seq<Field>, members: seq<Member>, depth: nat, fmt: bool)
    requires members != [] && |ds| == |members| && FieldWrites(ds[0], members[0], depth, fmt, |members| == 1)
    requires var es, rest := ds[1..], members[1..];
      && FieldsOk(es) && FieldsTree(es) == rest && FieldsLaid(es, depth, fmt)
      && (rest != [] ==>
            FieldsText(es) == NewLine(fmt) + (PrintMembers(rest, depth + 1, fmt) + Indent(depth, fmt)))
    ensures FieldsOk(ds) && FieldsTree(ds) == members && FieldsLaid(ds, depth, fmt)
    ensures FieldsText(ds) == NewLine(fmt) + (PrintMembers(members, depth + 1, fmt) + Indent(depth, fmt))
  {
    assert members == [members[0]] + members[1..];
    FieldsJoinText(ds, members, depth, fmt);
    hide Text, Print, PiecesText, EscapeAll, Tree, WellFormed, Laid, FieldsText, PrintMembers;
  }

  lemma FieldsJoinText(ds: seq<Field>, members: seq<Member>, depth: nat, fmt: bool)
    requires members != [] && |ds| == |members| && FieldWrites(ds[0], members[0], depth, fmt, |members| == 1)
    requires |members| > 1 ==>
      FieldsText(ds[1..]) ==
        NewLine(fmt) + (PrintMembers(members[1..], depth + 1, fmt) + Indent(depth, fmt))
    ensures FieldsText(ds) == NewLine(fmt) + (PrintMembers(members, depth + 1, fmt) + Indent(depth, fmt))
  {
    var f, m, nl := ds[0], members[0], NewLine(fmt);
    var ind, out := Indent(depth + 1, fmt), Indent(depth, fmt);
    var colon: seq<byte> := if fmt then [9] else [];
    var pair := Quote(m.name) + ([58] + (colon + Print(m.value, depth + 1, fmt)));
    var more := if |members| > 1 then [44] + FieldsText(ds[1..]) else [];
    FieldText(f, m, depth, fmt, more, |members| == 1);
    assert FieldsText(ds) == (nl + ind) + (pair + (f.after + more));
    PairText(m, depth, fmt);
    var x := if |members| > 1 then PrintMembers(members[1..], depth + 1, fmt) else [];
    assert PrintMembers(members, depth + 1, fmt) == (ind + pair) + Terminator(|members| > 1, fmt) + x;
    hide *;
    if |members| > 1 {
      LinesJoin(nl, ind, pair, [44], x, out);
    } else {
      LineEnds(nl, ind, pair, out);
    }
    TerminatorIs(|members| > 1, fmt);
  }

  lemma TerminatorIs(more: bool, fmt: bool)
    ensures Terminator(more, fmt) == (if more then [44] else []) + NewLine(fmt)
  {}

  lemma LinesJoin(nl: seq<byte>, ind: seq<byte>, pair: seq<byte>, comma: seq<byte>, x: seq<byte>, out: seq<byte>)
    ensures (nl + ind) + (pair + ([] + (comma + (nl + (x + out))))) ==
      nl + (((ind + pair) + (comma + nl) + x) + out)
  {}

  lemma LineEnds(nl: seq<byte>, ind: seq<byte>, pair: seq<byte>, out: seq<byte>)
    ensures (nl + ind) + (pair + ((nl + out) + [])) == nl + (((ind + pair) + ([] + nl) + []) + out)
  {}

  lemma PairText(m: Member, depth: nat, fmt: bool)
    ensures PrintMember(m, depth + 1, fmt) == Indent(depth + 1, fmt) +
      (Quote(m.name) + ([58] + ((if fmt then [9] else []) + Print(m.value, depth + 1, fmt))))
  {
    hide Quote, Print, Indent;
    var v, q := Print(m.value, depth + 1, fmt), Quote(m.name);
    assert [COLON, TAB] == [58] + [9];
    assert q + ([58] + [9]) + v == q + ([58] + ([9] + v));
    assert q + [58] + v == q + ([58] + ([] + v));
  }

  lemma FieldText(f: Field, m: Member, depth: nat, fmt: bool, more: seq<byte>, last: bool)
    requires FieldWrites(f, m, depth, fmt, last)
    ensures var colon: seq<byte> := if fmt then [9] else [];
      var q := [34] + PiecesText(f.name) + [34];
      f.before + (q + (f.mid + ([58] + (f.colon + (Text(f.doc) + (f.after + more)))))) ==
      (NewLine(fmt) + Indent(depth + 1, fmt)) +
        ((Quote(m.name) + ([58] + (colon + Print(m.value, depth + 1, fmt)))) + (f.after + more))
  {
    var colon: seq<byte> := if fmt then [9] else [];
    var q, v, a := Quote(m.name), Print(m.value, depth + 1, fmt), f.after + more;
    assert q == [34] + PiecesText(f.name) + [34] && Text(f.doc) == v;
    hide *;
    assert [] + ([58] + (colon + (v + a))) == [58] + (colon + (v + a));
    Associative(colon, v, a);
    Associative([58], colon + v, a);
    Associative(q, [58] + (colon + v), a);
  }

  /** What the printer writes for a value is a way to write it, laid out as it should be. */
  lemma {:induction false} ValueWrites(j: Json, depth: nat, fmt: bool)
    requires Printable(j)
    ensures Writes(DocOf(j, depth, fmt), j, depth, fmt)
    decreases j, 2
  {
    if j == Array([]) || j == Object([]) {
      EmptyArrWrites(depth, fmt);
      EmptyObjWrites(depth, fmt);
    } else if j.Array? {
      ItemsWrite(j.items, depth, fmt, true);
      ArrayWrites(j.items, depth, fmt);
    } else if j.Object? {
      FieldsWrite(j.members, depth, fmt);
      ObjectWrites(j.members, depth, fmt);
    } else {
      LeafWrites(j, depth, fmt);
    }
  }

  lemma ArrayWrites(items: seq<Json>, depth: nat, fmt: bool)
    requires items != []
    requires var ds := ItemsOf(items, depth, fmt, true);
      && |ds| == |items| && ItemsOk(ds) && ItemsTree(ds) == items && ItemsLaid(ds, depth, fmt, true)
      && ItemsText(ds) == [] + PrintItems(items, depth, fmt)
    ensures Writes(DocOf(Array(items), depth, fmt), Array(items), depth, fmt)
  {
    hide ItemsOf, ItemsText, PrintItems, ItemsOk, ItemsTree, ItemsLaid;
  }

  lemma ObjectWrites(members: seq<Member>, depth: nat, fmt: bool)
    requires members != []
    requires var ds := FieldsOf(members, depth, fmt);
      && |ds| == |members| && FieldsOk(ds) && FieldsTree(ds) == members && FieldsLaid(ds, depth, fmt)
      && FieldsText(ds) == NewLine(fmt) + (PrintMembers(members, depth + 1, fmt) + Indent(depth, fmt))
    ensures Writes(DocOf(Object(members), depth, fmt), Object(members), depth, fmt)
  {
    hide FieldsOf, FieldsText, PrintMembers, FieldsOk, FieldsTree, FieldsLaid, NewLine, Indent;
  }

  /** Both printers write sentences of the value they print. */
  lemma PrintIsSentence(j: Json, depth: nat, fmt: bool)
    requires Printable(j)
    ensures Layout(Print(j, depth, fmt), j, depth, fmt) && Sentence(Print(j, depth, fmt), j)
  {
    ValueWrites(j, depth, fmt);
    hide Text, Tree, WellFormed, Laid, Print;
  }

  // ----- sscanf ------------------------------------------------------------------------------

  predicate Spaces(w: seq<byte>) {
    forall i :: 0 <= i < |w| ==> w[i] == 32 || 9 <= w[i] <= 13
  }

  predicate HexFigures(ds: seq<byte>) {
    forall i :: 0 <= i < |ds| ==> HexFigure(ds[i])
  }

  /** The number in hexadecimal digits. */
  function HexOf(ds: seq<byte>): nat
    requires HexFigures(ds)
  {
    if ds == [] then 0 else 16 * HexOf(ds[..|ds| - 1]) + HexFigureOf(ds[|ds| - 1])
  }

  lemma {:induction false} SpacesSkip(w: seq<byte>, s: seq<byte>)
    requires Spaces(w) && !(First(s) == 32 || 9 <= First(s) <= 13)
    ensures SkipSpace(w + s) == s
  {
    if w == [] {
      assert w + s == s;
    } else {
      assert (w + s)[1..] == w[1..] + s;
      SpacesSkip(w[1..], s);
    }
  }

  lemma {:induction false} HexRunIs(a: seq<byte>, ds: seq<byte>, rest: seq<byte>, w: nat)
    requires HexFigures(a) && HexFigures(ds) && HexFigures(a + ds)
    requires |ds| <= w && (|ds| == w || rest == [] || !HexFigure(rest[0]))
    ensures HexRun(HexOf(a), ds + rest, w) == (HexOf(a + ds), |ds|)
    decreases |ds|
  {
    if ds == [] {
      assert ds + rest == rest && a + ds == a;
    } else {
      var b := a + [ds[0]];
      assert b[..|a|] == a && b + ds[1..] == a + ds && (ds + rest)[1..] == ds[1..] + rest;
      HexFigureReads(ds[0]);
      HexRunIs(b, ds[1..], rest, w - 1);
    }
  }

  /** What sscanf stores for %4x: past white space, a sign if there is one, and the digits that come
      then, in four characters at most; a minus is taken modulo 2^32. */
  lemma ScansHex(w: seq<byte>, sign: seq<byte>, ds: seq<byte>, rest: seq<byte>)
    requires Spaces(w) && (sign == [] || sign == [43] || sign == [45]) && ds != [] && HexFigures(ds)
    requires |sign| + |ds| <= 4 && (|sign| + |ds| == 4 || rest == [] || !HexFigure(rest[0]))
    requires !(ds[0] == 48 && |ds + rest| >= 2 && ((ds + rest)[1] == 120 || (ds + rest)[1] == 88))
    ensures ReadHex(w + (sign + (ds + rest))) ==
      Some(if sign == [45] then (0x1_0000_0000 - HexOf(ds)) % 0x1_0000_0000 else HexOf(ds))
  {
    var t := sign + (ds + rest);
    hide *;
    HexFirst(sign, ds, rest);
    SpacesSkip(w, t);
    HexNumberIs(ds, rest, 4 - |sign|);
    ReadHexSteps(w + t, t, sign, ds + rest, HexOf(ds));
  }

  lemma ReadHexSteps(s: seq<byte>, t: seq<byte>, sign: seq<byte>, x: seq<byte>, v: nat)
    requires SkipSpace(s) == t && (sign == [] || sign == [43] || sign == [45])
    requires if sign == [] then t == x && First(t) != 43 && First(t) != 45 else First(t) == sign[0] && t[1..] == x
    requires HexNumber(x, 4 - |sign|) == Some(v)
    ensures ReadHex(s) == Some(if sign == [45] then (0x1_0000_0000 - v) % 0x1_0000_0000 else v)
  {
    hide HexNumber, SkipSpace;
  }

  lemma HexFirst(sign: seq<byte>, ds: seq<byte>, rest: seq<byte>)
    requires (sign == [] || sign == [43] || sign == [45]) && ds != [] && HexFigures(ds)
    ensures var t := sign + (ds + rest);
      && !(First(t) == 32 || 9 <= First(t) <= 13) && (sign != [] ==> First(t) == sign[0])
      && (sign == [] ==> First(t) != 43 && First(t) != 45)
      && (if sign == [] then t == ds + rest else t[1..] == ds + rest)
  {
    assert HexFigure(ds[0]);
    hide HexFigures;
  }

  lemma HexNumberIs(ds: seq<byte>, rest: seq<byte>, w: nat)
    requires ds != [] && HexFigures(ds) && 2 <= w && |ds| <= w && (|ds| == w || rest == [] || !HexFigure(rest[0]))
    requires !(ds[0] == 48 && |ds + rest| >= 2 && ((ds + rest)[1] == 120 || (ds + rest)[1] == 88))
    ensures HexNumber(ds + rest, w) == Some(HexOf(ds))
  {
    var none: seq<byte> := [];
    assert none + ds == ds && HexOf(none) == 0 && First(ds + rest) == ds[0];
    HexRunIs(none, ds, rest, w);
    hide HexRun, HexOf, HexFigures;
  }

  /** It stores nothing where no digit comes. */
  lemma ScansNothing(w: seq<byte>, sign: seq<byte>, rest: seq<byte>)
    requires Spaces(w) && (sign == [] || sign == [43] || sign == [45])
    requires rest == [] || !HexFigure(rest[0])
    requires sign == [] ==> rest == [] || !(rest[0] == 43 || rest[0] == 45 || rest[0] == 32 || 9 <= rest[0] <= 13)
    ensures ReadHex(w + (sign + rest)) == None
  {
    var t := sign + rest;
    assert First(t) == if sign == [] then First(rest) else sign[0];
    SpacesSkip(w, t);
    if sign == [] {
      assert t == rest;
    } else {
      assert t[1..] == rest;
    }
  }
}
