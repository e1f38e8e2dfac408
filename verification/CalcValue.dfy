/** What a rule is worth, read from the numbers of its tokens and the callbacks alone, and that the
    tree stored for it evaluates to just that. */
module CalcValue {
  import opened Options
  import opened CalcSpec
  import opened CalcGrammar

  // ----- the tokens ------------------------------------------------------------------------

  /** A constant with its value. */
  predicate Constant<D>(e: Expr<D>, kind: Kind, t: Type) {
    e.kind == kind && e.type_ == t && e.init.Some? && e.children == []
  }

  /** The leaf is what the scanner makes for a token of this number. */
  predicate Delivered<D>(t: Token<D>) {
    match t.kind
    case 7 => Constant(t.leaf, IntConst, Int) && t.leaf.init.value.I?
    case 8 => Constant(t.leaf, FloatConst, Double) && t.leaf.init.value.F?
    case 9 => Constant(t.leaf, StringConst, String) && t.leaf.init.value.S?
    case 11 => t.leaf.kind == CurrentId && t.leaf.children == []
    case 12 => t.leaf.kind == FieldId && t.leaf.children == []
    case 13 => t.leaf.kind == StaticId && t.leaf.children == []
    case 14 => t.leaf.kind == DynamicId && t.leaf.children == []
    case 15 => t.leaf.kind == HistoryId && t.leaf.children == []
    case 16 => t.leaf.kind == SetId && t.leaf.children == []
    case 17 =>
      && (Constant(t.leaf, MultiInt, Pointer) || Constant(t.leaf, MultiFloat, Pointer)
          || Constant(t.leaf, MultiString, Pointer))
      && t.leaf.init.value.P?
    case 18 => Constant(t.leaf, Regex, Pointer) && t.leaf.init.value.P?
    case _ => true
  }

  ghost predicate AllDelivered<D>(ts: seq<Token<D>>) {
    forall i :: 0 <= i < |ts| ==> Delivered(ts[i])
  }

  // ----- the reading -----------------------------------------------------------------------

  /** A value of a type; or an identifier without a value; or a failure: an operand without a value,
      an operand of a wrong type, a remainder the processor cannot compute. */
  datatype Reading<D> = Known(type_: Type, value: Value<D>) | Missing | Unset | Wrong | Crash

  predicate Fails<D>(r: Reading<D>) {
    r.Unset? || r.Wrong? || r.Crash?
  }

  function Flag<D>(b: bool): Reading<D> {
    Known(Bool, B(if b then 1 else 0))
  }

  /** An identifier: its type and its value are asked for, and what is pointed to is read as the type. */
  function Identifier<D>(env: Env<D>, kind: Kind, id: int): Reading<D> {
    var t := env.getType(kind, id);
    if t == Unknown then Wrong
    else match env.getValue(kind, id)
      case None => Missing
      case Some(p) =>
        if kind == SetId then Known(Pointer, P(p))
        else match t
          case Bool => Known(Bool, B(env.asBool(p)))
          case Int => Known(Int, I(env.asInt(p)))
          case Long => Known(Long, L(env.asLong(p)))
          case Double => Known(Double, F(env.asDouble(p)))
          case String => Known(String, S(env.asString(p)))
          case Pointer => Known(Pointer, P(p))
          case _ => Wrong
  }

  function ReadToken<D>(env: Env<D>, t: Token<D>): Reading<D> {
    match t.kind
    case 11 => Identifier(env, CurrentId, t.leaf.id)
    case 12 => Identifier(env, FieldId, t.leaf.id)
    case 13 => Identifier(env, StaticId, t.leaf.id)
    case 14 => Identifier(env, DynamicId, t.leaf.id)
    case 15 => Identifier(env, HistoryId, t.leaf.id)
    case 16 => Identifier(env, SetId, t.leaf.id)
    case _ => if t.leaf.init.None? then Missing else Known(t.leaf.type_, t.leaf.init.value)
  }

  /** A minus before a constant. */
  function Flipped<D>(neg: D -> D, r: Reading<D>): Reading<D> {
    match r
    case Known(Int, I(i)) => Known(Int, I(0 - i))
    case Known(Double, F(d)) => Known(Double, F(neg(d)))
    case _ => Wrong
  }

  /** What can stand beside and, or and not. */
  predicate Condition<D>(r: Reading<D>) {
    r.Known? && ((r.type_ == Bool && r.value.B?) || (r.type_ == Int && r.value.I?))
  }

  predicate True<D>(r: Reading<D>)
    requires Condition(r)
  {
    if r.value.B? then r.value.b != 0 else r.value.i != 0
  }

  function Inverted<D>(r: Reading<D>): Reading<D> {
    if Fails(r) then r
    else if r.Missing? then Unset
    else if !Condition(r) then Wrong
    else Flag(!True(r))
  }

  /** 21 is or, 22 is and; the right side is not asked where the left decides. */
  function Connected<D>(k: int, x: Reading<D>, y: Reading<D>): Reading<D> {
    if x.Missing? then Unset
    else if !Condition(x) then Wrong
    else if k == 21 && True(x) then Flag(true)
    else if k == 22 && !True(x) then Flag(false)
    else if y.Missing? then Unset
    else if !Condition(y) then Wrong
    else Flag(True(y))
  }

  /** A number, as a double. */
  function Amount<D>(env: Env<D>, r: Reading<D>): Option<D> {
    match r
    case Known(Int, I(i)) => Some(env.fromInt(i))
    case Known(Long, L(l)) => Some(env.fromInt(l))
    case Known(Double, F(d)) => Some(d)
    case _ => None
  }

  /** The quotient of C, cut off towards zero. */
  function Quotient(i: int, j: int): int
    requires j != 0
  {
    if i >= 0 then (if j > 0 then i / j else 0 - i / (0 - j))
    else if j > 0 then 0 - (0 - i) / j
    else (0 - i) / (0 - j)
  }

  /** 32 adds, 33 subtracts, 34 multiplies, 35 divides, 36 takes the remainder. */
  function Calculated<D>(env: Env<D>, k: int, x: Reading<D>, y: Reading<D>): Reading<D> {
    match (Amount(env, x), Amount(env, y))
    case (Some(a), Some(b)) =>
      if k == 32 then Known(Double, F(env.add(a, b)))
      else if k == 33 then Known(Double, F(env.sub(a, b)))
      else if k == 34 then Known(Double, F(env.mul(a, b)))
      else if k == 35 then Known(Double, F(env.div(a, b)))
      else
        var i, j := env.toInt(a), env.toInt(b);
        if j == 0 || (i == -2147483648 && j == -1) then Crash
        else Known(Int, I(env.toInt(env.fromInt(i - j * Quotient(i, j)))))
    case _ => Wrong
  }

  /** A truth value or a number, as a double; what else can be compared counts as 0. */
  function Compared<D>(env: Env<D>, r: Reading<D>): D {
    if r.Known? && r.type_ == Bool && r.value.B? then env.fromInt(r.value.b)
    else match Amount(env, r) case Some(a) => a case None => env.fromInt(0)
  }

  /** 23 equal, 24 unequal, 25 less, 26 at most, 27 greater, 28 at least; of texts by the sign of
      strcmp, which 24 gives as it is. */
  function Comparing<D>(env: Env<D>, k: int, x: Reading<D>, y: Reading<D>): Reading<D>
    requires x.Known? && y.Known?
  {
    if x.type_ == String && y.type_ == String then
      match (x.value, y.value)
      case (S(s), S(t)) =>
        var c := env.compare(s, t);
        if k == 23 then Flag(c == 0)
        else if k == 24 then Known(Bool, B(c))
        else if k == 25 then Flag(c < 0)
        else if k == 26 then Flag(c <= 0)
        else if k == 27 then Flag(c > 0)
        else Flag(c >= 0)
      case _ => Wrong
    else if x.type_ == String || y.type_ == String then Wrong
    else
      var a, b := Compared(env, x), Compared(env, y);
      if k == 23 then Flag(env.equal(a, b))
      else if k == 24 then Flag(!env.equal(a, b))
      else if k == 25 then Flag(env.less(a, b))
      else if k == 26 then Flag(env.lessEq(a, b))
      else if k == 27 then Flag(env.less(b, a))
      else Flag(env.lessEq(b, a))
  }

  /** 29 is in the set, 30 is not in the set, 31 matches the regular expression. */
  function Tested<D>(env: Env<D>, k: int, x: Reading<D>, y: Reading<D>): Reading<D>
    requires x.Known?
  {
    match y
    case Known(Pointer, P(p)) =>
      if k == 29 then (if x.type_ == env.setType(p) then Flag(env.inSet(p, x.value)) else Wrong)
      else if k == 30 then
        (if x.type_ == Pointer || (x.type_ == String && env.setType(p) == String) then Flag(!env.inSet(p, x.value))
         else Wrong)
      else if x.type_ == String && x.value.S? then Flag(env.matches(p, x.value.s))
      else Wrong
    case _ => Wrong
  }

  function Joined<D>(env: Env<D>, k: int, x: Reading<D>, y: Reading<D>): Reading<D> {
    if Fails(x) then x
    else if Fails(y) then y
    else if k <= 22 then Connected(k, x, y)
    else if x.Missing? || y.Missing? then Unset
    else if k >= 32 then Calculated(env, k, x, y)
    else if k <= 28 then Comparing(env, k, x, y)
    else Tested(env, k, x, y)
  }

  /** What the parse is worth. */
  function Reads<D>(neg: D -> D, env: Env<D>, c: Parse<D>): Reading<D> {
    match c
    case Tok(t) => ReadToken(env, t)
    case Operand(t) => ReadToken(env, t)
    case Element(t) => ReadToken(env, t)
    case Signed(_, t) => Flipped(neg, ReadToken(env, t))
    case Parens(_, inner, _) => Reads(neg, env, inner)
    case Negation(_, inner) => Inverted(Reads(neg, env, inner))
    case Binary(left, op, right) => Joined(env, op.kind, Reads(neg, env, left), Reads(neg, env, right))
    case Line(inner, _) => Reads(neg, env, inner)
  }

  // ----- the tree evaluates to it ----------------------------------------------------------

  ghost predicate Agrees<D>(r: Reading<D>, o: Outcome<D>) {
    match r
    case Known(t, v) => o.Done? && o.cell.type_ == t && o.cell.value == Some(v) && Plain(t, v)
    case Missing => o.Done? && o.cell.value == None
    case Unset => o == UnsetOperand
    case Wrong => o == TypeError
    case Crash => o == Trap
  }

  /** The value is of the type. */
  predicate Plain<D>(t: Type, v: Value<D>) {
    match t
    case Bool => v.B?
    case Int => v.I?
    case Long => v.L?
    case Double => v.F?
    case String => v.S?
    case Pointer => v.P?
    case _ => false
  }

  lemma TokenAgrees<D>(env: Env<D>, t: Token<D>)
    requires Delivered(t) && OperandKind(t.kind)
    ensures Shape(t.leaf) && Agrees(ReadToken(env, t), Eval(t.leaf, env))
    ensures Eval(t.leaf, env).Done? ==> Eval(t.leaf, env).cell.kind == t.leaf.kind
    ensures t.kind == 16 || t.kind == 17 ==>
      Eval(t.leaf, env).Done? ==>
        SetKind(t.leaf.kind) && (ReadToken(env, t).Known? ==> ReadToken(env, t).type_ == Pointer)
    ensures t.kind == 18 ==> t.leaf.kind == Regex && ReadToken(env, t).Known? && ReadToken(env, t).type_ == Pointer
  {
    assert EvalAll(t.leaf.children, env) == Cells([]);
  }

  lemma FlippedAgrees<D>(neg: D -> D, env: Env<D>, t: Token<D>)
    requires Delivered(t) && (t.kind == 7 || t.kind == 8)
    ensures Shape(Negate(neg, t.leaf)) && Agrees(Flipped(neg, ReadToken(env, t)), Eval(Negate(neg, t.leaf), env))
  {
    assert EvalAll(Negate(neg, t.leaf).children, env) == Cells([]);
  }

  lemma EvalOne<D>(e: Expr<D>, env: Env<D>)
    requires |e.children| == 1 && Shape(e)
    ensures EvalAll(e.children, env) ==
      match Eval(e.children[0], env) case Done(c) => Cells([c]) case o => Stopped(o)
  {
    assert e.children[..0] == [];
    assert EvalAll(e.children[..0], env) == Cells([]);
  }

  lemma EvalTwo<D>(e: Expr<D>, env: Env<D>)
    requires |e.children| == 2 && Shape(e)
    ensures EvalAll(e.children, env) ==
      match Eval(e.children[0], env)
      case Done(c) => (match Eval(e.children[1], env) case Done(d) => Cells([c, d]) case o => Stopped(o))
      case o => Stopped(o)
  {
    var es := e.children;
    assert es[..1][..0] == [] && EvalAll(es[..1][..0], env) == Cells([]);
    assert EvalAll(es[..1], env) == match Eval(es[0], env) case Done(c) => Cells([] + [c]) case o => Stopped(o);
  }

  /** A cell shows a reading. */
  ghost predicate Shown<D>(r: Reading<D>, c: Cell<D>) {
    Agrees(r, Done(c))
  }

  /** The scan of one operand, and of two. */
  lemma ScanOne<D>(op: Op, c: Cell<D>)
    requires op == And || op == Or || op == Not
    ensures RelScan(op, Bool, [c]) ==
      if c.value == None then UnsetOperand
      else if c.type_ != Bool && c.type_ != Int then TypeError
      else Done(Cell(Rel, Bool, Some(B(Truth((ReadInt(c.value.value) != 0) == (op != Not))))))
  {
    var nobody: seq<Cell<D>> := [];
    assert [c][1..] == nobody && RelScan(op, Bool, nobody) == Done(Cell(Rel, Bool, Some(B(Truth(op != Or)))));
  }

  lemma ScanTwo<D>(op: Op, c: Cell<D>, d: Cell<D>)
    requires op == And || op == Or
    ensures RelScan(op, Bool, [c, d]) ==
      if c.value == None then UnsetOperand
      else if c.type_ != Bool && c.type_ != Int then TypeError
      else if (ReadInt(c.value.value) != 0) == (op == Or) then Done(Cell(Rel, Bool, Some(B(Truth(op == Or)))))
      else RelScan(op, Bool, [d])
  {
    assert [c, d][1..] == [d];
  }

  lemma InvertedAgrees<D>(env: Env<D>, r: Reading<D>, e: Expr<D>)
    requires Shape(e) && Agrees(r, Eval(e, env))
    ensures Agrees(Inverted(r), Eval(Invert(e), env))
  {
    EvalOne(Invert(e), env);
    if Eval(e, env).Done? {
      var c := Eval(e, env).cell;
      ScanOne(Not, c);
      assert Eval(Invert(e), env) == RelScan(Not, Bool, [c]);
      hide Eval, EvalAll, RelScan;
    }
  }

  lemma ConnectedAgrees<D>(k: int, x: Reading<D>, y: Reading<D>, c: Cell<D>, d: Cell<D>)
    requires (k == 21 || k == 22) && Shown(x, c) && Shown(y, d)
    ensures Agrees(Connected(k, x, y), RelScan(OpOf(k), Bool, [c, d]))
  {
    ScanOne(OpOf(k), d);
    ScanTwo(OpOf(k), c, d);
    hide RelScan;
  }

  lemma RemainderIs(i: int, j: int)
    requires j != 0
    ensures i - j * Quotient(i, j) == Remainder(i, j)
  {
    var n, m := if i < 0 then -i else i, if j < 0 then -j else j;
    assert n == m * (n / m) + n % m;
  }

  lemma CalculatedAgrees<D>(env: Env<D>, k: int, x: Reading<D>, y: Reading<D>, c: Cell<D>, d: Cell<D>)
    requires 32 <= k <= 36 && x.Known? && y.Known? && Shown(x, c) && Shown(y, d)
    ensures Agrees(Calculated(env, k, x, y), ArithOp(env, OpOf(k), TypeOf(k), c, d))
  {
    if k == 36 && Amount(env, x).Some? && Amount(env, y).Some? {
      var i, j := env.toInt(Amount(env, x).value), env.toInt(Amount(env, y).value);
      if j != 0 { RemainderIs(i, j); }
      hide Remainder, Quotient;
    }
  }

  lemma ComparingAgrees<D>(env: Env<D>, k: int, x: Reading<D>, y: Reading<D>, c: Cell<D>, d: Cell<D>)
    requires 23 <= k <= 28 && x.Known? && y.Known? && Shown(x, c) && Shown(y, d)
    ensures Agrees(Comparing(env, k, x, y), LogicOp(env, OpOf(k), Bool, c, d))
  {
    if x.type_ != String && y.type_ != String {
      assert Compared(env, x) == Promote(env, c.type_, c.value.value);
      assert Compared(env, y) == Promote(env, d.type_, d.value.value);
    }
    hide Compared, Promote;
  }

  lemma TestedAgrees<D>(env: Env<D>, k: int, x: Reading<D>, y: Reading<D>, c: Cell<D>, d: Cell<D>)
    requires 29 <= k <= 31 && x.Known? && y.Known? && Shown(x, c) && Shown(y, d) && y.type_ == Pointer
    requires if k == 31 then d.kind == Regex else SetKind(d.kind)
    ensures Agrees(Tested(env, k, x, y), LogicOp(env, OpOf(k), Bool, c, d))
  {}

  /** The right side of a test is a set or a regular expression. */
  ghost predicate FitsTest<D>(k: int, y: Reading<D>, o: Outcome<D>) {
    29 <= k <= 31 && o.Done? ==>
      (if k == 31 then o.cell.kind == Regex else SetKind(o.cell.kind)) && (y.Known? ==> y.type_ == Pointer)
  }

  /** The node of an operator on two cells. */
  function AtNode<D>(env: Env<D>, k: int, c: Cell<D>, d: Cell<D>): Outcome<D> {
    if k == 21 || k == 22 then RelScan(if k == 21 then Or else And, Bool, [c, d])
    else if k <= 31 then LogicOp(env, OpOf(k), Bool, c, d)
    else ArithOp(env, OpOf(k), TypeOf(k), c, d)
  }

  lemma CellsAgree<D>(env: Env<D>, k: int, x: Reading<D>, y: Reading<D>, c: Cell<D>, d: Cell<D>)
    requires 21 <= k <= 36 && Shown(x, c) && Shown(y, d) && FitsTest(k, y, Done(d))
    ensures Agrees(Joined(env, k, x, y), AtNode(env, k, c, d))
  {
    hide Calculated, Connected, Comparing, Tested, RelScan, ArithOp, LogicOp, TypeOf;
    if k <= 22 {
      ConnectedAgrees(k, x, y, c, d);
    } else if !x.Known? || !y.Known? {
      UnsetOperands(env, k, c, d);
    } else if k >= 32 {
      CalculatedAgrees(env, k, x, y, c, d);
    } else if k <= 28 {
      ComparingAgrees(env, k, x, y, c, d);
    } else {
      TestedAgrees(env, k, x, y, c, d);
    }
  }

  lemma JoinedAgrees<D>(env: Env<D>, k: int, x: Reading<D>, y: Reading<D>, a: Expr<D>, b: Expr<D>)
    requires 21 <= k <= 36 && Shape(a) && Shape(b) && Agrees(x, Eval(a, env)) && Agrees(y, Eval(b, env))
    requires FitsTest(k, y, Eval(b, env))
    ensures Agrees(Joined(env, k, x, y), Eval(Join(k, a, b), env))
  {
    EvalTwo(Join(k, a, b), env);
    if Eval(a, env).Done? && Eval(b, env).Done? {
      var c, d := Eval(a, env).cell, Eval(b, env).cell;
      NodeJoins(env, k, a, b, c, d);
      assert Eval(Join(k, a, b), env) == AtNode(env, k, c, d);
      hide *;
      CellsAgree(env, k, x, y, c, d);
    } else {
      hide EvalNode, EvalAll, Connected, Calculated, Comparing, Tested;
    }
  }

  lemma NodeJoins<D>(env: Env<D>, k: int, a: Expr<D>, b: Expr<D>, c: Cell<D>, d: Cell<D>)
    requires 21 <= k <= 36 && Shape(Join(k, a, b))
    ensures EvalNode(Join(k, a, b), env, [c, d]) == AtNode(env, k, c, d)
  {
    hide RelScan, LogicOp, ArithOp;
  }

  lemma UnsetOperands<D>(env: Env<D>, k: int, c: Cell<D>, d: Cell<D>)
    requires c.value == None || d.value == None
    ensures LogicOp(env, OpOf(k), Bool, c, d) == ArithOp(env, OpOf(k), TypeOf(k), c, d) == UnsetOperand
  {}

  lemma DeliveredParts<D>(a: seq<Token<D>>, b: seq<Token<D>>)
    ensures AllDelivered(a + b) <==> AllDelivered(a) && AllDelivered(b)
  {
    forall i | 0 <= i < |a| ensures (a + b)[i] == a[i] {}
    forall i | 0 <= i < |b| ensures (a + b)[|a| + i] == b[i] {}
  }

  /** The tree that the parser stores for a rule evaluates to what its tokens say. */
  lemma {:induction false} TreeReads<D>(neg: D -> D, env: Env<D>, c: Parse<D>)
    requires (IsRule(c) || IsSet(c) || IsRegex(c)) && AllDelivered(Text(c))
    ensures Shape(TreeOf(neg, c)) && Agrees(Reads(neg, env, c), Eval(TreeOf(neg, c), env))
    decreases c
  {
    Descend(c);
    hide IsRule, IsUnary, IsSubrule, IsTerm, IsProduct, Eval, Agrees;
    match c {
      case Operand(t) =>
        assert Text(c)[0] == t;
        TokenAgrees(env, t);
      case Element(t) =>
        assert Text(c)[0] == t;
        TokenAgrees(env, t);
      case Signed(minus, t) =>
        assert Text(c)[1] == t;
        FlippedAgrees(neg, env, t);
      case Parens(open, inner, close) =>
        DeliveredParts([open] + Text(inner), [close]);
        DeliveredParts([open], Text(inner));
        TreeReads(neg, env, inner);
      case Negation(not, inner) =>
        DeliveredParts([not], Text(inner));
        Lift(inner);
        TreeReads(neg, env, inner);
        InvertedAgrees(env, Reads(neg, env, inner), TreeOf(neg, inner));
      case Binary(left, op, right) =>
        DeliveredParts(Text(left) + [op], Text(right));
        DeliveredParts(Text(left), [op]);
        Lift(left);
        Lift(right);
        TreeReads(neg, env, left);
        TreeReads(neg, env, right);
        RightFits(neg, env, op.kind, right);
        JoinedAgrees(env, op.kind, Reads(neg, env, left), Reads(neg, env, right),
          TreeOf(neg, left), TreeOf(neg, right));
    }
  }

  lemma RightFits<D>(neg: D -> D, env: Env<D>, k: int, c: Parse<D>)
    requires AllDelivered(Text(c)) && (29 <= k <= 31 ==> RightSide(k, c)) && Shape(TreeOf(neg, c))
    ensures FitsTest(k, Reads(neg, env, c), Eval(TreeOf(neg, c), env))
  {
    if 29 <= k <= 31 {
      assert Text(c)[0] == c.t;
      TokenAgrees(env, c.t);
    }
  }
}
