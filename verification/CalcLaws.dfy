/** The laws of evaluation in exact arithmetic: what an operator's node holds, told by the
    mathematical meaning of its operands. */
module CalcLaws {
  import opened Options
  import opened CalcSpec

  // ----- exact arithmetic --------------------------------------------------------------------

  /** i is x cut off towards zero. */
  ghost predicate CutOff(x: real, i: int) {
    if x >= 0.0 then i as real <= x < i as real + 1.0 else i as real - 1.0 < x <= i as real
  }

  /** Sums, differences, products and quotients are those of the numbers. */
  ghost predicate ExactSums<D(!new)>(env: Env<D>, num: D -> real) {
    && (forall i: int :: num(env.fromInt(i)) == i as real)
    && (forall a, b :: num(env.add(a, b)) == num(a) + num(b))
    && (forall a, b :: num(env.sub(a, b)) == num(a) - num(b))
  }

  ghost predicate ExactProducts<D(!new)>(env: Env<D>, num: D -> real) {
    && (forall a, b :: num(env.mul(a, b)) == num(a) * num(b))
    && (forall a, b :: num(b) != 0.0 ==> num(env.div(a, b)) == num(a) / num(b))
  }

  ghost predicate ExactOrder<D(!new)>(env: Env<D>, num: D -> real) {
    && (forall a, b :: env.less(a, b) <==> num(a) < num(b))
    && (forall a, b :: env.lessEq(a, b) <==> num(a) <= num(b))
    && (forall a, b :: env.equal(a, b) <==> num(a) == num(b))
  }

  /** Casts to integers of 32 and 64 bits cut off, where the result is in range. */
  ghost predicate ExactCasts<D(!new)>(env: Env<D>, num: D -> real) {
    && (forall a, i: int {:trigger CutOff(num(a), i)} ::
          -0x8000_0000 <= i < 0x8000_0000 && CutOff(num(a), i) ==> env.toInt(a) == i)
    && (forall a, i: int {:trigger CutOff(num(a), i)} ::
          -0x8000_0000_0000_0000 <= i < 0x8000_0000_0000_0000 && CutOff(num(a), i) ==> env.toLong(a) == i)
  }

  /** The doubles of the environment are the numbers `num` says, and compute as these do. */
  ghost predicate Exact<D(!new)>(env: Env<D>, num: D -> real) {
    ExactSums(env, num) && ExactProducts(env, num) && ExactOrder(env, num) && ExactCasts(env, num)
  }

  // ----- operands ----------------------------------------------------------------------------

  /** The number a cell holds. */
  function Figure<D>(num: D -> real, c: Cell<D>): Option<real> {
    match c.value
    case Some(I(i)) => if c.type_ == Int then Some(i as real) else None
    case Some(L(l)) => if c.type_ == Long then Some(l as real) else None
    case Some(F(d)) => if c.type_ == Double then Some(num(d)) else None
    case _ => None
  }

  /** The number a cell counts as in comparisons, where truth values are numbers too. */
  function Rating<D>(num: D -> real, c: Cell<D>): Option<real> {
    match c.value
    case Some(B(b)) => if c.type_ == Bool then Some(b as real) else None
    case _ => Figure(num, c)
  }

  function Text<D>(c: Cell<D>): Option<string> {
    match c.value
    case Some(S(s)) => if c.type_ == String then Some(s) else None
    case _ => None
  }

  /** The truth value a cell holds: a bool, or an int that is not zero. */
  function Holds<D>(c: Cell<D>): Option<bool> {
    match c.value
    case Some(B(b)) => if c.type_ == Bool then Some(b != 0) else None
    case Some(I(i)) => if c.type_ == Int then Some(i != 0) else None
    case _ => None
  }

  // ----- the laws ----------------------------------------------------------------------------

  /** The value is x, as a number of type t: of a double, x itself, of an integer type, x cut off. */
  ghost predicate Stores<D>(num: D -> real, t: Type, v: Option<Value<D>>, x: real) {
    && (t == Double ==> v.Some? && v.value.F? && num(v.value.d) == x)
    && (t == Int ==> forall i: int {:trigger CutOff(x, i)} ::
          -0x8000_0000 <= i < 0x8000_0000 && CutOff(x, i) ==> v == Some(I(i)))
    && (t == Long ==> forall i: int {:trigger CutOff(x, i)} ::
          -0x8000_0000_0000_0000 <= i < 0x8000_0000_0000_0000 && CutOff(x, i) ==> v == Some(L(i)))
  }

  /** Remainder r of i by j: what is left of i over a multiple of j, less than j, with i's sign. */
  ghost predicate RemainderOf(i: int, j: int, r: int) {
    && (exists q :: i == j * q + r)
    && (if j > 0 then -j < r < j else j < r < -j)
    && (i >= 0 ==> r >= 0) && (i <= 0 ==> r <= 0)
  }

  /** Sum, difference, product and quotient of two numbers. */
  function Figured(op: Op, x: real, y: real): real {
    match op
    case Plus => x + y
    case Sub => x - y
    case Mut => x * y
    case Div => if y != 0.0 then x / y else 0.0
    case _ => 0.0
  }

  /** What arithmetic stores. */
  ghost predicate ArithLaws<D>(num: D -> real, op: Op, t: Type, x: real, y: real, ok: bool, v: Option<Value<D>>) {
    && (op == Plus || op == Sub || op == Mut || (op == Div && y != 0.0) ==> ok && Stores(num, t, v, Figured(op, x, y)))
    && (op == Mod ==>
          forall i: int, j: int {:trigger CutOff(x, i), CutOff(y, j)} ::
            && CutOff(x, i) && CutOff(y, j) && j != 0 && !(i == -0x8000_0000 && j == -1)
            && -0x8000_0000 <= i < 0x8000_0000 && -0x8000_0000 <= j < 0x8000_0000 ==>
              ok && exists r {:trigger RemainderOf(i, j, r)} :: RemainderOf(i, j, r) && Stores(num, t, v, r as real))
  }

  /** The truth value is 1 for true and 0 for false. */
  ghost predicate Says<D>(ok: bool, v: Option<Value<D>>, b: bool) {
    ok && v == Some(B(if b then 1 else 0))
  }

  /** The six comparisons of numbers. */
  ghost predicate CompareLaws<D>(op: Op, x: real, y: real, ok: bool, v: Option<Value<D>>) {
    && (op == Lt ==> Says(ok, v, x < y))
    && (op == Le ==> Says(ok, v, x <= y))
    && (op == Gt ==> Says(ok, v, x > y))
    && (op == Ge ==> Says(ok, v, x >= y))
    && (op == Eq ==> Says(ok, v, x == y))
    && (op == Neq ==> Says(ok, v, x != y))
  }

  /** The six comparisons of texts; unequal is any number but 0. */
  ghost predicate TextLaws<D>(compare: (string, string) -> int, op: Op, s: string, t: string, ok: bool,
      v: Option<Value<D>>)
  {
    && (op == Lt ==> Says(ok, v, compare(s, t) < 0))
    && (op == Le ==> Says(ok, v, compare(s, t) <= 0))
    && (op == Gt ==> Says(ok, v, compare(s, t) > 0))
    && (op == Ge ==> Says(ok, v, compare(s, t) >= 0))
    && (op == Eq ==> Says(ok, v, compare(s, t) == 0))
    && (op == Neq ==> ok && v.Some? && v.value.B? && (v.value.b != 0 <==> compare(s, t) != 0))
  }

  /** Membership in the set, and matching the regular expression, that a pointer stands for. */
  ghost predicate TestLaws<D>(env: Env<D>, op: Op, c: Cell<D>, d: Cell<D>, ok: bool, v: Option<Value<D>>) {
    c.value.Some? && d.value.Some? && d.value.value.P? ==>
      var w, p := c.value.value, d.value.value.p;
      var isSet := d.kind == MultiInt || d.kind == MultiFloat || d.kind == MultiString || d.kind == SetId;
      && (op == Bl && isSet && c.type_ == env.setType(p) ==> Says(ok, v, env.inSet(p, w)))
      && (op == Nbl && isSet && (c.type_ == d.type_ || (c.type_ == String && env.setType(p) == String)) ==>
            Says(ok, v, !env.inSet(p, w)))
      && (op == Match && d.kind == Regex && Text(c).Some? ==> Says(ok, v, env.matches(p, Text(c).value)))
  }

  /** And, or and not of operands that all hold truth values. */
  ghost predicate TruthLaws<D>(op: Op, cells: seq<Cell<D>>, ok: bool, v: Option<Value<D>>) {
    (forall i :: 0 <= i < |cells| ==> Holds(cells[i]).Some?) ==>
      && (op == And ==> Says(ok, v, forall i :: 0 <= i < |cells| ==> Holds(cells[i]) == Some(true)))
      && (op == Or ==> Says(ok, v, exists i :: 0 <= i < |cells| && Holds(cells[i]) == Some(true)))
      && (op == Not ==> Says(ok, v, forall i :: 0 <= i < |cells| ==> Holds(cells[i]) == Some(false)))
  }

  /** What the node of an arithmetic operator holds, if its operands hold numbers. */
  ghost predicate ArithHolds<D>(num: D -> real, op: Op, t: Type, c: Cell<D>, d: Cell<D>, ok: bool,
      v: Option<Value<D>>)
  {
    (t == Int || t == Long || t == Double) && Figure(num, c).Some? && Figure(num, d).Some? ==>
      ArithLaws(num, op, t, Figure(num, c).value, Figure(num, d).value, ok, v)
  }

  /** What the node of a comparison, a membership test or a match holds. */
  ghost predicate LogicHolds<D>(env: Env<D>, num: D -> real, op: Op, c: Cell<D>, d: Cell<D>, ok: bool,
      v: Option<Value<D>>)
  {
    && (Rating(num, c).Some? && Rating(num, d).Some? ==>
          CompareLaws(op, Rating(num, c).value, Rating(num, d).value, ok, v))
    && (Text(c).Some? && Text(d).Some? ==> TextLaws(env.compare, op, Text(c).value, Text(d).value, ok, v))
    && TestLaws(env, op, c, d, ok, v)
  }

  /** What a node holds after its operands hold the cells. */
  ghost predicate NodeLaws<D>(env: Env<D>, num: D -> real, kind: Kind, op: Op, t: Type, cells: seq<Cell<D>>, ok: bool,
      v: Option<Value<D>>)
  {
    && (kind == Arith && |cells| == 2 ==> ArithHolds(num, op, t, cells[0], cells[1], ok, v))
    && (kind == Logic && |cells| == 2 ==> LogicHolds(env, num, op, cells[0], cells[1], ok, v))
    && (kind == Rel ==> TruthLaws(op, cells, ok, v))
  }

  /** An operator's node after its operands have been evaluated. */
  ghost predicate Lawful<D(!new)>(e: Expr<D>, env: Env<D>, num: D -> real, ok: bool, v: Option<Value<D>>)
    requires Shape(e)
  {
    forall cells: seq<Cell<D>> ::
      |cells| == |e.children| && (forall i :: 0 <= i < |cells| ==> Eval(e.children[i], env) == Done(cells[i])) ==>
        NodeLaws(env, num, e.kind, e.op, e.type_, cells, ok, v)
  }

  // ----- the evaluator obeys them ------------------------------------------------------------

  /** Whether an outcome is a success, and the value it shows. */
  ghost predicate Succeeds<D>(o: Outcome<D>, ok: bool, v: Option<Value<D>>) {
    ok == o.Done? && (o.Done? ==> v == o.cell.value)
  }

  lemma FigureIs<D(!new)>(env: Env<D>, num: D -> real, c: Cell<D>)
    requires Exact(env, num) && Figure(num, c).Some?
    ensures Numeric(c.type_) && c.value.Some? && num(Promote(env, c.type_, c.value.value)) == Figure(num, c).value
  {}

  lemma RatingIs<D(!new)>(env: Env<D>, num: D -> real, c: Cell<D>)
    requires Exact(env, num) && Rating(num, c).Some?
    ensures c.type_ != String && c.value.Some? && num(Promote(env, c.type_, c.value.value)) == Rating(num, c).value
  {}

  lemma ResultStores<D(!new)>(env: Env<D>, num: D -> real, t: Type, d: D, ok: bool, v: Option<Value<D>>)
    requires Exact(env, num) && Numeric(t) && Succeeds(ArithResult(env, t, d), ok, v)
    ensures ok && Stores(num, t, v, num(d))
  {}

  lemma Signs(m: int, d: int)
    ensures (-m) * d == -(m * d) && m * (-d) == -(m * d) && (-m) * (-d) == m * d
  {}

  lemma Parts(n: nat, m: nat, r: int)
    requires m > 0 && r == n % m
    ensures n == m * (n / m) + r && 0 <= r < m
  {}

  lemma RemainderIs(i: int, j: int)
    requires j != 0
    ensures RemainderOf(i, j, Remainder(i, j))
  {
    var n, m := if i < 0 then -i else i, if j < 0 then -j else j;
    Parts(n, m, n % m);
    RemainderValue(i, j, n, m);
    hide *;
    SignedParts(i, j, n, m, n / m, n % m);
  }

  lemma RemainderValue(i: int, j: int, n: nat, m: nat)
    requires m > 0 && n == (if i < 0 then -i else i) && m == (if j < 0 then -j else j)
    ensures Remainder(i, j) == if i < 0 then -(n % m) else n % m
  {}

  lemma SignedParts(i: int, j: int, n: nat, m: nat, d: int, r: int)
    requires m > 0 && n == (if i < 0 then -i else i) && m == (if j < 0 then -j else j)
    requires n == m * d + r && 0 <= r < m
    ensures RemainderOf(i, j, if i < 0 then -r else r)
  {
    var q := if (i < 0) == (j < 0) then d else -d;
    Signs(m, d);
    assert i == j * q + if i < 0 then -r else r;
  }

  /** The double an operation yields. */
  function Yield<D>(env: Env<D>, op: Op, a: D, b: D): D {
    match op
    case Plus => env.add(a, b)
    case Sub => env.sub(a, b)
    case Mut => env.mul(a, b)
    case _ => env.div(a, b)
  }

  lemma ExactYield<D(!new)>(env: Env<D>, num: D -> real, op: Op, a: D, b: D)
    requires Exact(env, num) && (op == Plus || op == Sub || op == Mut || (op == Div && num(b) != 0.0))
    ensures num(Yield(env, op, a, b)) == Figured(op, num(a), num(b))
  {}

  lemma CastIs<D(!new)>(env: Env<D>, num: D -> real, a: D, i: int)
    requires Exact(env, num) && CutOff(num(a), i) && -0x8000_0000 <= i < 0x8000_0000
    ensures env.toInt(a) == i
  {}

  lemma ExactWhole<D(!new)>(env: Env<D>, num: D -> real, i: int)
    requires Exact(env, num)
    ensures num(env.fromInt(i)) == i as real
  {}

  lemma ModObeys<D(!new)>(env: Env<D>, num: D -> real, t: Type, a: D, b: D, i: int, j: int, ok: bool,
      v: Option<Value<D>>)
    requires Exact(env, num) && Numeric(t) && CutOff(num(a), i) && CutOff(num(b), j) && j != 0
    requires -0x8000_0000 <= i < 0x8000_0000 && -0x8000_0000 <= j < 0x8000_0000
    requires env.toInt(a) == i && env.toInt(b) == j ==>
      Succeeds(ArithResult(env, t, env.fromInt(Remainder(i, j))), ok, v)
    ensures ok && RemainderOf(i, j, Remainder(i, j)) && Stores(num, t, v, Remainder(i, j) as real)
  {
    hide Exact, ArithResult, Remainder, RemainderOf, CutOff, Stores;
    RemainderIs(i, j);
    CastIs(env, num, a, i);
    CastIs(env, num, b, j);
    ExactWhole(env, num, Remainder(i, j));
    ResultStores(env, num, t, env.fromInt(Remainder(i, j)), ok, v);
  }

  /** The operation on the promoted operands. */
  lemma ArithIs<D>(env: Env<D>, op: Op, t: Type, c: Cell<D>, d: Cell<D>, a: D, b: D)
    requires c.value.Some? && d.value.Some? && Numeric(c.type_) && Numeric(d.type_)
    requires a == Promote(env, c.type_, c.value.value) && b == Promote(env, d.type_, d.value.value)
    ensures var o := ArithOp(env, op, t, c, d);
      && (op == Plus || op == Sub || op == Mut || op == Div ==> o == ArithResult(env, t, Yield(env, op, a, b)))
      && (op == Mod && !ModTraps(env.toInt(a), env.toInt(b)) ==>
            o == ArithResult(env, t, env.fromInt(Remainder(env.toInt(a), env.toInt(b)))))
  {
    hide Promote, ArithResult;
  }

  lemma ArithObeys<D(!new)>(env: Env<D>, num: D -> real, op: Op, t: Type, c: Cell<D>, d: Cell<D>, ok: bool,
      v: Option<Value<D>>)
    requires Exact(env, num) && Numeric(t) && Figure(num, c).Some? && Figure(num, d).Some?
    requires Succeeds(ArithOp(env, op, t, c, d), ok, v)
    ensures ArithLaws(num, op, t, Figure(num, c).value, Figure(num, d).value, ok, v)
  {
    FigureIs(env, num, c);
    FigureIs(env, num, d);
    var a, b := Promote(env, c.type_, c.value.value), Promote(env, d.type_, d.value.value);
    ArithIs(env, op, t, c, d, a, b);
    hide Exact, Promote, Figure, ArithOp, ArithResult, Stores, Remainder, CutOff, RemainderOf, Succeeds, Yield,
      Figured;
    if op == Mod {
      forall i: int, j: int | CutOff(num(a), i) && CutOff(num(b), j) && j != 0 && !(i == -0x8000_0000 && j == -1)
        && -0x8000_0000 <= i < 0x8000_0000 && -0x8000_0000 <= j < 0x8000_0000
        ensures ok && RemainderOf(i, j, Remainder(i, j)) && Stores(num, t, v, Remainder(i, j) as real)
      {
        ModObeys(env, num, t, a, b, i, j, ok, v);
      }
    } else {
      if op == Plus || op == Sub || op == Mut || (op == Div && num(b) != 0.0) {
        ExactYield(env, num, op, a, b);
        ResultStores(env, num, t, Yield(env, op, a, b), ok, v);
      }
    }
  }

  lemma CompareObeys<D(!new)>(env: Env<D>, num: D -> real, op: Op, t: Type, c: Cell<D>, d: Cell<D>, ok: bool,
      v: Option<Value<D>>)
    requires Exact(env, num) && Rating(num, c).Some? && Rating(num, d).Some?
    requires Succeeds(LogicOp(env, op, t, c, d), ok, v)
    ensures CompareLaws(op, Rating(num, c).value, Rating(num, d).value, ok, v)
  {
    RatingIs(env, num, c);
    RatingIs(env, num, d);
    hide Promote, Rating;
  }

  lemma TextObeys<D(!new)>(env: Env<D>, op: Op, t: Type, c: Cell<D>, d: Cell<D>, ok: bool, v: Option<Value<D>>)
    requires Text(c).Some? && Text(d).Some? && Succeeds(LogicOp(env, op, t, c, d), ok, v)
    ensures TextLaws(env.compare, op, Text(c).value, Text(d).value, ok, v)
  {}

  lemma TestObeys<D(!new)>(env: Env<D>, op: Op, t: Type, c: Cell<D>, d: Cell<D>, ok: bool, v: Option<Value<D>>)
    requires Succeeds(LogicOp(env, op, t, c, d), ok, v)
    ensures TestLaws(env, op, c, d, ok, v)
  {}

  /** The scan of operands that all hold truth values: whether one of them decides. */
  lemma {:induction false} ScanSays<D>(op: Op, t: Type, cells: seq<Cell<D>>)
    requires op == And || op == Or || op == Not
    requires forall i :: 0 <= i < |cells| ==> Holds(cells[i]).Some?
    ensures RelScan(op, t, cells) == Done(Cell(Rel, t, Some(B(Truth(
      if exists i :: 0 <= i < |cells| && Holds(cells[i]) == Some(op != And) then op == Or else op != Or)))))
  {
    if cells != [] {
      var rest := cells[1..];
      assert Holds(cells[0]).Some?;
      ScanSays(op, t, rest);
      if Holds(cells[0]) != Some(op != And) {
        if i :| 0 <= i < |rest| && Holds(rest[i]) == Some(op != And) {
          assert Holds(cells[i + 1]) == Some(op != And);
        }
        if i :| 0 <= i < |cells| && Holds(cells[i]) == Some(op != And) {
          assert Holds(rest[i - 1]) == Some(op != And);
        }
      }
    }
  }

  lemma TruthObeys<D>(op: Op, t: Type, cells: seq<Cell<D>>, ok: bool, v: Option<Value<D>>)
    requires op == And || op == Or || op == Not
    requires Succeeds(RelScan(op, t, cells), ok, v)
    ensures TruthLaws(op, cells, ok, v)
  {
    if forall i :: 0 <= i < |cells| ==> Holds(cells[i]).Some? {
      ScanSays(op, t, cells);
      hide Holds, RelScan;
    }
  }

  lemma TruthAlways<D(!new)>(op: Op, t: Type, cells: seq<Cell<D>>)
    ensures var o := if op == And || op == Or || op == Not then RelScan(op, t, cells) else TypeError;
      forall ok, v :: Succeeds(o, ok, v) ==> TruthLaws(op, cells, ok, v)
  {
    var o := if op == And || op == Or || op == Not then RelScan(op, t, cells) else TypeError;
    hide TruthLaws;
    forall ok, v | Succeeds(o, ok, v) ensures TruthLaws(op, cells, ok, v) {
      if op == And || op == Or || op == Not {
        TruthObeys(op, t, cells, ok, v);
      } else {
        NoTruthLaws(op, cells, ok, v);
      }
    }
  }

  /** The outcome at an operator's node. */
  ghost predicate AtNode<D>(env: Env<D>, kind: Kind, op: Op, t: Type, cells: seq<Cell<D>>, o: Outcome<D>) {
    && (kind == Arith ==> |cells| == 2 && o == ArithOp(env, op, t, cells[0], cells[1]))
    && (kind == Logic ==> |cells| == 2 && o == LogicOp(env, op, t, cells[0], cells[1]))
    && (kind == Rel ==> o == if op == And || op == Or || op == Not then RelScan(op, t, cells) else TypeError)
  }

  lemma ArithNode<D(!new)>(env: Env<D>, num: D -> real, op: Op, t: Type, c: Cell<D>, d: Cell<D>, ok: bool,
      v: Option<Value<D>>)
    requires Exact(env, num) && Succeeds(ArithOp(env, op, t, c, d), ok, v)
    ensures ArithHolds(num, op, t, c, d, ok, v)
  {
    hide Exact, ArithLaws, ArithOp, Figure, Succeeds;
    if Numeric(t) && Figure(num, c).Some? && Figure(num, d).Some? {
      ArithObeys(env, num, op, t, c, d, ok, v);
    }
  }

  lemma LogicNode<D(!new)>(env: Env<D>, num: D -> real, op: Op, t: Type, c: Cell<D>, d: Cell<D>, ok: bool,
      v: Option<Value<D>>)
    requires Exact(env, num) && Succeeds(LogicOp(env, op, t, c, d), ok, v)
    ensures LogicHolds(env, num, op, c, d, ok, v)
  {
    hide Exact, CompareLaws, TextLaws, TestLaws, LogicOp, Rating, Text, Succeeds;
    TestObeys(env, op, t, c, d, ok, v);
    if Rating(num, c).Some? && Rating(num, d).Some? {
      CompareObeys(env, num, op, t, c, d, ok, v);
    }
    if Text(c).Some? && Text(d).Some? {
      TextObeys(env, op, t, c, d, ok, v);
    }
  }

  lemma NodeObeys<D(!new)>(env: Env<D>, num: D -> real, kind: Kind, op: Op, t: Type, cells: seq<Cell<D>>,
      o: Outcome<D>, ok: bool, v: Option<Value<D>>)
    requires Exact(env, num) && AtNode(env, kind, op, t, cells, o) && Succeeds(o, ok, v)
    ensures NodeLaws(env, num, kind, op, t, cells, ok, v)
  {
    if kind == Arith {
      hide ArithHolds, Succeeds, Exact, ArithOp;
      ArithNode(env, num, op, t, cells[0], cells[1], ok, v);
    } else if kind == Logic {
      hide LogicHolds, Succeeds, Exact, LogicOp;
      LogicNode(env, num, op, t, cells[0], cells[1], ok, v);
    } else {
      hide Succeeds, Exact, TruthLaws;
      TruthAlways(op, t, cells);
    }
  }

  /** In exact arithmetic, however the doubles are read as numbers. */
  ghost predicate Obeys<D(!new)>(env: Env<D>, kind: Kind, op: Op, t: Type, cells: seq<Cell<D>>, ok: bool,
      v: Option<Value<D>>)
  {
    forall num: D -> real :: Exact(env, num) ==> NodeLaws(env, num, kind, op, t, cells, ok, v)
  }

  lemma OutcomeObeys<D(!new)>(env: Env<D>, kind: Kind, op: Op, t: Type, cells: seq<Cell<D>>, o: Outcome<D>)
    requires AtNode(env, kind, op, t, cells, o)
    ensures forall ok, v :: Succeeds(o, ok, v) ==> Obeys(env, kind, op, t, cells, ok, v)
  {
    hide AtNode, Succeeds, Exact, NodeLaws;
    forall ok, v | Succeeds(o, ok, v) ensures Obeys(env, kind, op, t, cells, ok, v) {
      forall num: D -> real | Exact(env, num) ensures NodeLaws(env, num, kind, op, t, cells, ok, v) {
        NodeObeys(env, num, kind, op, t, cells, o, ok, v);
      }
    }
  }

  lemma NoTruthLaws<D>(op: Op, cells: seq<Cell<D>>, ok: bool, v: Option<Value<D>>)
    requires op != And && op != Or && op != Not
    ensures TruthLaws(op, cells, ok, v)
  {}

  /** The meaning of every expression obeys the laws at its root, and so at every node. */
  lemma EvalObeys<D(!new)>(e: Expr<D>, env: Env<D>, num: D -> real, ok: bool, v: Option<Value<D>>)
    requires Shape(e) && Exact(env, num) && Succeeds(Eval(e, env), ok, v)
    ensures Lawful(e, env, num, ok, v)
  {
    hide Exact, NodeLaws, ArithOp, LogicOp, RelScan;
    forall cells: seq<Cell<D>> | |cells| == |e.children|
      && (forall i :: 0 <= i < |cells| ==> Eval(e.children[i], env) == Done(cells[i]))
      ensures NodeLaws(env, num, e.kind, e.op, e.type_, cells, ok, v)
    {
      CellsOf(e.children, env, cells);
      NodeObeys(env, num, e.kind, e.op, e.type_, cells, Eval(e, env), ok, v);
    }
  }

  lemma {:induction false} CellsOf<D>(es: seq<Expr<D>>, env: Env<D>, cells: seq<Cell<D>>)
    requires |cells| == |es| && forall i :: 0 <= i < |es| ==> Shape(es[i])
    requires forall i :: 0 <= i < |cells| ==> Eval(es[i], env) == Done(cells[i])
    ensures EvalAll(es, env) == Cells(cells)
  {
    hide Eval;
    if es != [] {
      var n := |es| - 1;
      CellsOf(es[..n], env, cells[..n]);
      assert cells == cells[..n] + [cells[n]];
    }
  }

  // ----- there is exact arithmetic -----------------------------------------------------------

  function Cut(x: real): int {
    if x >= 0.0 then x.Floor else 0 - (0.0 - x).Floor
  }

  function Times(a: real, b: real): real {
    a * b
  }

  function Over(a: real, b: real): real {
    if b == 0.0 then 0.0 else a / b
  }

  /** The same callbacks with real numbers for doubles. */
  function Reals(env: Env<real>): Env<real> {
    env.(fromInt := (i: int) => i as real,
      add := (a: real, b: real) => a + b,
      sub := (a: real, b: real) => a - b,
      mul := Times,
      div := Over,
      less := (a: real, b: real) => a < b,
      lessEq := (a: real, b: real) => a <= b,
      equal := (a: real, b: real) => a == b,
      toInt := Cut,
      toLong := Cut)
  }

  lemma CutOnce(x: real, i: int)
    requires CutOff(x, i)
    ensures Cut(x) == i
  {}

  lemma RealsAreExact(env: Env<real>)
    ensures Exact(Reals(env), (x: real) => x)
  {
    RealSums(env);
    RealProducts(env);
    RealOrder(env);
    RealCasts(env);
    hide ExactSums, ExactProducts, ExactOrder, ExactCasts, Reals;
  }

  lemma RealSums(env: Env<real>)
    ensures ExactSums(Reals(env), (x: real) => x)
  {}

  lemma RealProducts(env: Env<real>)
    ensures ExactProducts(Reals(env), (x: real) => x)
  {
    var r, num := Reals(env), (x: real) => x;
    assert r.mul == Times && r.div == Over;
    hide Reals;
    forall a: real, b: real ensures num(r.mul(a, b)) == num(a) * num(b) {}
    forall a: real, b: real | num(b) != 0.0 ensures num(r.div(a, b)) == num(a) / num(b) {}
  }

  lemma RealOrder(env: Env<real>)
    ensures ExactOrder(Reals(env), (x: real) => x)
  {}

  lemma RealCasts(env: Env<real>)
    ensures ExactCasts(Reals(env), (x: real) => x)
  {
    hide Cut;
    forall x: real, i: int | CutOff(x, i) ensures Cut(x) == i { CutOnce(x, i); }
  }

  /** A constant of the tree. */
  function Whole(i: int): Expr<real> {
    Expr(IntConst, NoOp, 0, Int, Some(I(i)), [])
  }

  lemma WholeIs(i: int, env: Env<real>)
    ensures Shape(Whole(i)) && Eval(Whole(i), env) == Done(Cell(IntConst, Int, Some(I(i))))
  {
    assert EvalAll(Whole(i).children, env) == Cells([]);
  }

  /** 3 < 5 is true, whatever the callbacks. */
  lemma ThreeBelowFive(env: Env<real>, ok: bool, v: Option<Value<real>>)
    requires Shape(Expr(Logic, Lt, 0, Bool, None, [Whole(3), Whole(5)]))
    requires Succeeds(Eval(Expr(Logic, Lt, 0, Bool, None, [Whole(3), Whole(5)]), Reals(env)), ok, v)
    ensures ok && v == Some(B(1))
  {
    var num := (x: real) => x;
    hide *;
    RealsAreExact(env);
    WholeIs(3, Reals(env));
    WholeIs(5, Reals(env));
    EvalObeys(Expr(Logic, Lt, 0, Bool, None, [Whole(3), Whole(5)]), Reals(env), num, ok, v);
    LessBy(Expr(Logic, Lt, 0, Bool, None, [Whole(3), Whole(5)]), Reals(env), num, 3, 5, ok, v);
  }

  lemma LessBy<D(!new)>(e: Expr<D>, env: Env<D>, num: D -> real, i: int, j: int, ok: bool, v: Option<Value<D>>)
    requires Shape(e) && e.kind == Logic && e.op == Lt && |e.children| == 2 && Lawful(e, env, num, ok, v)
    requires Eval(e.children[0], env) == Done(Cell(IntConst, Int, Some(I(i))))
    requires Eval(e.children[1], env) == Done(Cell(IntConst, Int, Some(I(j))))
    ensures ok && v == Some(B(if i < j then 1 else 0))
  {
    var cells: seq<Cell<D>> := [Cell(IntConst, Int, Some(I(i))), Cell(IntConst, Int, Some(I(j)))];
    assert NodeLaws(env, num, e.kind, e.op, e.type_, cells, ok, v) by { hide Eval, NodeLaws; }
    hide Lawful, Eval;
  }
}
