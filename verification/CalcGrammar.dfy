/** The language of rule expressions: tokens, parses with the levels of operators, and the tree
    that the parser's actions build for a parse. */
module CalcGrammar {
  import opened Options
  import opened CalcSpec
  import opened CalcTables

  /** What the scanner delivers: the number of a terminal and, for operands, the leaf it made. */
  datatype Token<D> = Token(kind: int, leaf: Expr<D>)

  predicate OperandKind(k: int) {
    7 <= k <= 9 || 11 <= k <= 18
  }

  // ----- parses ----------------------------------------------------------------------------

  /** A parse: `Tok` is a terminal still on the stack, `Line` a rule with its semicolon. */
  datatype Parse<D> =
    | Tok(t: Token<D>)
    | Operand(t: Token<D>)
    | Signed(minus: Token<D>, t: Token<D>)
    | Parens(open: Token<D>, inner: Parse<D>, close: Token<D>)
    | Element(t: Token<D>)
    | Binary(left: Parse<D>, op: Token<D>, right: Parse<D>)
    | Negation(not: Token<D>, inner: Parse<D>)
    | Line(inner: Parse<D>, semi: Token<D>)

  /** The tokens of a parse, from left to right. */
  function Text<D>(c: Parse<D>): seq<Token<D>> {
    match c
    case Tok(t) => [t]
    case Operand(t) => [t]
    case Signed(minus, t) => [minus, t]
    case Parens(open, inner, close) => [open] + Text(inner) + [close]
    case Element(t) => [t]
    case Binary(left, op, right) => Text(left) + [op] + Text(right)
    case Negation(not, inner) => [not] + Text(inner)
    case Line(inner, semi) => Text(inner) + [semi]
  }

  predicate IsPrimary<D>(c: Parse<D>)
    decreases c, 0
  {
    match c
    case Operand(t) => 7 <= t.kind <= 9 || 11 <= t.kind <= 15
    case Signed(minus, t) => minus.kind == SUB && (t.kind == NUM || t.kind == FNUM)
    case Parens(open, inner, close) => open.kind == LP && IsRule(inner) && close.kind == RP
    case _ => false
  }

  /** Primaries joined by `*`, `/` and `%`, to the left. */
  predicate IsProduct<D>(c: Parse<D>)
    decreases c, 1
  {
    IsPrimary(c) || (c.Binary? && 34 <= c.op.kind <= 36 && IsProduct(c.left) && IsPrimary(c.right))
  }

  /** Products joined by `+` and `-`, to the left. */
  predicate IsTerm<D>(c: Parse<D>)
    decreases c, 2
  {
    IsProduct(c) || (c.Binary? && 32 <= c.op.kind <= 33 && IsTerm(c.left) && IsProduct(c.right))
  }

  /** Terms compared, to the left; the right side of a membership test is a set, that of a match
      a regular expression. */
  predicate IsSubrule<D>(c: Parse<D>)
    decreases c, 3
  {
    IsTerm(c) || (c.Binary? && 23 <= c.op.kind <= 31 && IsSubrule(c.left) && RightSide(c.op.kind, c.right))
  }

  predicate RightSide<D>(op: int, c: Parse<D>)
    decreases c, 3
  {
    if op == BL || op == NBL then IsSet(c) else if op == MATCH then IsRegex(c) else IsTerm(c)
  }

  predicate IsSet<D>(c: Parse<D>) {
    c.Element? && (c.t.kind == SET || c.t.kind == MULTI)
  }

  predicate IsRegex<D>(c: Parse<D>) {
    c.Element? && c.t.kind == REGEX
  }

  predicate IsUnary<D>(c: Parse<D>)
    decreases c, 4
  {
    IsSubrule(c) || (c.Negation? && c.not.kind == NOT && IsUnary(c.inner))
  }

  /** Subrules joined by `&&` and `||` on one level, to the left. */
  predicate IsRule<D>(c: Parse<D>)
    decreases c, 5
  {
    IsUnary(c) || (c.Binary? && 21 <= c.op.kind <= 22 && IsRule(c.left) && IsSubrule(c.right))
  }

  /** Every level contains the tighter ones. */
  lemma Lift<D>(c: Parse<D>)
    ensures IsPrimary(c) ==> IsProduct(c)
    ensures IsProduct(c) ==> IsTerm(c)
    ensures IsTerm(c) ==> IsSubrule(c)
    ensures IsSubrule(c) ==> IsUnary(c)
    ensures IsUnary(c) ==> IsRule(c)
  {}

  /** What a parse of a level is made of. */
  lemma Descend<D>(c: Parse<D>)
    ensures IsRule(c) ==> IsUnary(c) || (c.Binary? && 21 <= c.op.kind <= 22 && IsRule(c.left) && IsSubrule(c.right))
    ensures IsUnary(c) ==> IsSubrule(c) || (c.Negation? && c.not.kind == NOT && IsUnary(c.inner))
    ensures IsSubrule(c) ==>
      IsTerm(c) || (c.Binary? && 23 <= c.op.kind <= 31 && IsSubrule(c.left) && RightSide(c.op.kind, c.right))
    ensures IsTerm(c) ==> IsProduct(c) || (c.Binary? && 32 <= c.op.kind <= 33 && IsTerm(c.left) && IsProduct(c.right))
    ensures IsProduct(c) ==>
      IsPrimary(c) || (c.Binary? && 34 <= c.op.kind <= 36 && IsProduct(c.left) && IsPrimary(c.right))
  {}

  // ----- the trees the actions build -------------------------------------------------------

  function OpOf(k: int): Op {
    match k
    case 21 => Or case 22 => And case 23 => Eq case 24 => Neq case 25 => Lt case 26 => Le case 27 => Gt
    case 28 => Ge case 29 => Bl case 30 => Nbl case 31 => Match case 32 => Plus case 33 => Sub
    case 34 => Mut case 35 => Div case 36 => Mod case _ => NoOp
  }

  function KindOf(k: int): Kind {
    if k <= 22 then Rel else if k <= 31 then Logic else Arith
  }

  function TypeOf(k: int): Type {
    if k <= 31 then Bool else if k == MOD then Int else Double
  }

  function Join<D>(k: int, left: Expr<D>, right: Expr<D>): Expr<D> {
    Expr(KindOf(k), OpOf(k), 0, TypeOf(k), None, [left, right])
  }

  function Invert<D>(e: Expr<D>): Expr<D> {
    Expr(Rel, Not, 0, Bool, None, [e])
  }

  /** The sign a constant takes over from a minus before it. */
  function Negate<D>(neg: D -> D, e: Expr<D>): Expr<D> {
    match e.init
    case Some(I(i)) => e.(init := Some(I(-i)))
    case Some(F(d)) => e.(init := Some(F(neg(d))))
    case _ => e
  }

  function TreeOf<D>(neg: D -> D, c: Parse<D>): Expr<D> {
    match c
    case Tok(t) => t.leaf
    case Operand(t) => t.leaf
    case Signed(_, t) => Negate(neg, t.leaf)
    case Parens(_, inner, _) => TreeOf(neg, inner)
    case Element(t) => t.leaf
    case Binary(left, op, right) => Join(op.kind, TreeOf(neg, left), TreeOf(neg, right))
    case Negation(_, inner) => Invert(TreeOf(neg, inner))
    case Line(inner, _) => TreeOf(neg, inner)
  }

  // ----- the leaves of the tree ------------------------------------------------------------

  /** The leaves of a tree, from left to right. */
  function Leaves<D>(e: Expr<D>): seq<Expr<D>>
    decreases e
  {
    if e.children == [] then [e] else LeavesOf(e.children)
  }

  function LeavesOf<D>(es: seq<Expr<D>>): seq<Expr<D>>
    decreases es
  {
    if es == [] then [] else Leaves(es[0]) + LeavesOf(es[1..])
  }

  /** The leaves that the tokens stand for, read from the left: those of the operands, each negated
      if the token before it is a minus that does not follow an operand or a closing parenthesis. */
  function ReadLeaves<D>(neg: D -> D, ts: seq<Token<D>>, after: bool, sign: bool): seq<Expr<D>> {
    if ts == [] then []
    else if OperandKind(ts[0].kind) then
      [if sign then Negate(neg, ts[0].leaf) else ts[0].leaf] + ReadLeaves(neg, ts[1..], true, false)
    else ReadLeaves(neg, ts[1..], ts[0].kind == RP, ts[0].kind == SUB && !after)
  }

  /** The scanner's leaves have no children. */
  ghost predicate Scanned<D>(ts: seq<Token<D>>) {
    forall i :: 0 <= i < |ts| && OperandKind(ts[i].kind) ==>
      ts[i].leaf.children == [] && ts[i].leaf.kind != Arith && ts[i].leaf.kind != Logic
  }

  lemma LeavesOfTwo<D>(e: Expr<D>, f: Expr<D>)
    ensures LeavesOf([e, f]) == Leaves(e) + Leaves(f) && LeavesOf([e]) == Leaves(e)
  {
    assert [e, f][1..] == [f] && [f][1..] == [] && [e][1..] == [];
    assert LeavesOf([f]) == Leaves(f) + LeavesOf([]);
  }

  lemma ScannedParts<D>(a: seq<Token<D>>, t: Token<D>, b: seq<Token<D>>)
    requires Scanned(a + [t] + b)
    ensures Scanned(a) && Scanned(b)
  {
    var ts := a + [t] + b;
    forall i | 0 <= i < |a| ensures ts[i] == a[i] {}
    forall i | 0 <= i < |b| ensures ts[|a| + 1 + i] == b[i] {}
  }

  /** A parse with nothing but the language's own parts in it. */
  predicate Complete<D>(c: Parse<D>) {
    match c
    case Tok(_) => false
    case Operand(t) => OperandKind(t.kind)
    case Signed(minus, t) => minus.kind == SUB && OperandKind(t.kind)
    case Parens(open, inner, close) => open.kind == LP && Complete(inner) && close.kind == RP
    case Element(t) => OperandKind(t.kind)
    case Binary(left, op, right) => Complete(left) && 21 <= op.kind <= 36 && Complete(right)
    case Negation(not, inner) => not.kind == NOT && Complete(inner)
    case Line(_, _) => false
  }

  lemma {:induction false} RuleIsComplete<D>(c: Parse<D>)
    requires IsRule(c) || IsSet(c) || IsRegex(c)
    ensures Complete(c)
  {
    Descend(c);
    match c {
      case Parens(_, inner, _) => RuleIsComplete(inner);
      case Binary(left, op, right) =>
        Lift(left);
        Lift(right);
        RuleIsComplete(left);
        RuleIsComplete(right);
      case Negation(_, inner) =>
        Lift(inner);
        RuleIsComplete(inner);
      case _ =>
    }
  }

  /** The leaves of the tree are exactly those the tokens stand for, in order, with the signs of the
      minuses before them, and the tree is one the evaluator can work on. */
  lemma LeavesAreOperands<D>(neg: D -> D, c: Parse<D>)
    requires Complete(c) && Scanned(Text(c))
    ensures Leaves(TreeOf(neg, c)) == ReadLeaves(neg, Text(c), false, false)
    ensures Shape(TreeOf(neg, c))
  {
    LeavesRead(neg, c, []);
    assert Text(c) + [] == Text(c);
  }

  /** The same with more tokens to come. */
  lemma {:induction false} LeavesRead<D>(neg: D -> D, c: Parse<D>, rest: seq<Token<D>>)
    requires Complete(c) && Scanned(Text(c))
    ensures ReadLeaves(neg, Text(c) + rest, false, false) == Leaves(TreeOf(neg, c)) + ReadLeaves(neg, rest, true, false)
    ensures Shape(TreeOf(neg, c))
    decreases c, 1
  {
    match c {
      case Operand(t) => assert ([t] + rest)[1..] == rest;
      case Element(t) => assert ([t] + rest)[1..] == rest;
      case Signed(minus, t) =>
        assert ([minus, t] + rest)[1..] == [t] + rest && ([t] + rest)[1..] == rest;
      case Parens(open, inner, close) => ParensRead(neg, c, rest);
      case Negation(not, inner) => NegationRead(neg, c, rest);
      case Binary(left, op, right) =>
        ScannedParts(Text(left), op, Text(right));
        BinaryRead(neg, left, op, right, rest);
    }
  }

  lemma {:induction false} ParensRead<D>(neg: D -> D, c: Parse<D>, rest: seq<Token<D>>)
    requires c.Parens? && Complete(c) && Scanned(Text(c))
    ensures ReadLeaves(neg, Text(c) + rest, false, false) == Leaves(TreeOf(neg, c)) + ReadLeaves(neg, rest, true, false)
    ensures Shape(TreeOf(neg, c))
    decreases c, 0
  {
    var inner := Text(c.inner);
    assert Text(c) == [] + [c.open] + (inner + [c.close]) && inner + [c.close] == inner + [c.close] + [];
    ScannedParts([], c.open, inner + [c.close]);
    ScannedParts(inner, c.close, []);
    hide Shape, Leaves, Scanned;
    LeavesRead(neg, c.inner, [c.close] + rest);
    assert (Text(c) + rest)[1..] == inner + ([c.close] + rest) && ([c.close] + rest)[1..] == rest;
  }

  lemma NotRead<D>(neg: D -> D, t: Token<D>, x: seq<Token<D>>)
    requires t.kind == NOT
    ensures ReadLeaves(neg, [t] + x, false, false) == ReadLeaves(neg, x, false, false)
  {
    assert ([t] + x)[1..] == x;
  }

  lemma {:induction false} NegationRead<D>(neg: D -> D, c: Parse<D>, rest: seq<Token<D>>)
    requires c.Negation? && Complete(c) && Scanned(Text(c))
    ensures ReadLeaves(neg, Text(c) + rest, false, false) == Leaves(TreeOf(neg, c)) + ReadLeaves(neg, rest, true, false)
    ensures Shape(TreeOf(neg, c))
    decreases c, 0
  {
    var inner := Text(c.inner);
    assert Text(c) == [] + [c.not] + inner;
    ScannedParts([], c.not, inner);
    LeavesRead(neg, c.inner, rest);
    assert Text(c) + rest == [c.not] + (inner + rest) && Complete(c.inner) && c.not.kind == NOT;
    NotRead(neg, c.not, inner + rest);
    LeavesOfTwo(TreeOf(neg, c.inner), TreeOf(neg, c.inner));
    hide Scanned, ReadLeaves, LeavesOf, Text, Complete;
  }

  lemma {:induction false} BinaryRead<D>(neg: D -> D, left: Parse<D>, op: Token<D>, right: Parse<D>,
      rest: seq<Token<D>>)
    requires Complete(left) && Scanned(Text(left)) && Complete(right) && Scanned(Text(right)) && 21 <= op.kind <= 36
    ensures var c := Binary(left, op, right);
      && ReadLeaves(neg, Text(c) + rest, false, false) == Leaves(TreeOf(neg, c)) + ReadLeaves(neg, rest, true, false)
      && Shape(TreeOf(neg, c))
    decreases Binary(left, op, right), 0
  {
    var more := [op] + (Text(right) + rest);
    LeavesRead(neg, left, more);
    LeavesRead(neg, right, rest);
    OperatorRead(neg, op, Text(right) + rest);
    BinaryParts(neg, left, op, right, rest);
    hide *;
    assert Leaves(TreeOf(neg, left)) + (Leaves(TreeOf(neg, right)) + ReadLeaves(neg, rest, true, false)) ==
      (Leaves(TreeOf(neg, left)) + Leaves(TreeOf(neg, right))) + ReadLeaves(neg, rest, true, false);
  }

  lemma OperatorRead<D>(neg: D -> D, op: Token<D>, x: seq<Token<D>>)
    requires 21 <= op.kind <= 36
    ensures ReadLeaves(neg, [op] + x, true, false) == ReadLeaves(neg, x, false, false)
  {
    assert ([op] + x)[1..] == x;
  }

  lemma BinaryParts<D>(neg: D -> D, left: Parse<D>, op: Token<D>, right: Parse<D>, rest: seq<Token<D>>)
    requires Shape(TreeOf(neg, left)) && Shape(TreeOf(neg, right)) && 21 <= op.kind <= 36
    ensures var c := Binary(left, op, right);
      && Text(c) + rest == Text(left) + ([op] + (Text(right) + rest))
      && Leaves(TreeOf(neg, c)) == Leaves(TreeOf(neg, left)) + Leaves(TreeOf(neg, right))
      && Shape(TreeOf(neg, c))
  {
    LeavesOfTwo(TreeOf(neg, left), TreeOf(neg, right));
  }
}
