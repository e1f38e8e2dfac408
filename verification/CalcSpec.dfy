/** Rule expressions: what an expression tree evaluates to, and what its type check accepts. */
module CalcSpec {
  import opened Options

  datatype Kind =
    | Rel | Arith | Logic
    | IntConst | FloatConst | StringConst
    | MultiInt | MultiFloat | MultiString | Regex
    | SetId | CurrentId | FieldId | StaticId | DynamicId | HistoryId

  datatype Op =
    | Plus | Sub | Mut | Div | Mod
    | Lt | Le | Gt | Ge | Eq | Neq | Bl | Nbl | Match
    | Not | And | Or
    | NoOp

  datatype Type = Bool | Char | Int | Long | Double | String | Pointer | Unknown

  /** The union member last written. Booleans are C integers. */
  datatype Value<D> = B(b: int) | I(i: int) | L(l: int) | F(d: D) | S(s: string) | P(p: int)

  /** The callbacks, what their pointers point to, and the arithmetic of doubles. */
  datatype Env<!D> = Env(
    getType: (Kind, int) -> Type,
    getValue: (Kind, int) -> Option<int>,
    asBool: int -> int,
    asInt: int -> int,
    asLong: int -> int,
    asDouble: int -> D,
    asString: int -> string,
    fromInt: int -> D,
    add: (D, D) -> D,
    sub: (D, D) -> D,
    mul: (D, D) -> D,
    div: (D, D) -> D,
    toInt: D -> int,
    toLong: D -> int,
    less: (D, D) -> bool,
    lessEq: (D, D) -> bool,
    equal: (D, D) -> bool,
    compare: (string, string) -> int,
    setType: int -> Type,
    inSet: (int, Value<D>) -> bool,
    matches: (int, string) -> bool)

  /** An expression: for leaves that are constants, `init` is the value the parser stored. */
  datatype Expr<D> = Expr(kind: Kind, op: Op, id: int, type_: Type, init: Option<Value<D>>, children: seq<Expr<D>>)

  /** A node after its evaluation: no value if it is left unset. */
  datatype Cell<D> = Cell(kind: Kind, type_: Type, value: Option<Value<D>>)

  /** Done, or -1 because an operand is unset, or -1 with an error status, or a crash: a remainder
      that the processor cannot compute. */
  datatype Outcome<D> = Done(cell: Cell<D>) | UnsetOperand | TypeError | Trap

  predicate Extern(k: Kind) {
    k == SetId || k == CurrentId || k == FieldId || k == StaticId || k == DynamicId || k == HistoryId
  }

  /** Nodes of arithmetic and comparison have two children. */
  ghost predicate Shape<D>(e: Expr<D>) {
    && (e.kind == Arith || e.kind == Logic ==> |e.children| == 2)
    && forall i :: 0 <= i < |e.children| ==> Shape(e.children[i])
  }

  // ----- reading a value as a type ---------------------------------------------------------

  /** A value written as the type says. */
  predicate Fits<D>(t: Type, v: Value<D>) {
    match t
    case Bool => v.B?
    case Int => v.I?
    case Long => v.L?
    case Double => v.F?
    case String => v.S?
    case Pointer => v.P?
    case _ => true
  }

  function ReadInt<D>(v: Value<D>): int {
    match v case B(b) => b case I(i) => i case L(l) => l case P(p) => p case _ => 0
  }

  function ReadString<D>(v: Value<D>): string {
    if v.S? then v.s else ""
  }

  function ReadDouble<D>(env: Env<D>, v: Value<D>): D {
    if v.F? then v.d else env.fromInt(0)
  }

  /** Promote an operand to double; other types count as 0. */
  function Promote<D>(env: Env<D>, t: Type, v: Value<D>): D {
    match t
    case Bool => env.fromInt(ReadInt(v))
    case Int => env.fromInt(ReadInt(v))
    case Long => env.fromInt(ReadInt(v))
    case Double => ReadDouble(env, v)
    case _ => env.fromInt(0)
  }

  predicate Numeric(t: Type) {
    t == Int || t == Long || t == Double
  }

  // ----- evaluation ------------------------------------------------------------------------

  function Truth(b: bool): int {
    if b then 1 else 0
  }

  /** AND, OR and NOT look at the operands from the left until one decides. */
  function RelScan<D>(op: Op, t: Type, cells: seq<Cell<D>>): Outcome<D>
    requires op == And || op == Or || op == Not
  {
    if cells == [] then Done(Cell(Rel, t, Some(B(Truth(op != Or)))))
    else if cells[0].value == None then UnsetOperand
    else if cells[0].type_ != Bool && cells[0].type_ != Int then TypeError
    else if (ReadInt(cells[0].value.value) != 0) == (op != And) then Done(Cell(Rel, t, Some(B(Truth(op == Or)))))
    else RelScan(op, t, cells[1..])
  }

  /** The remainder of C: truncating, with the sign of the dividend. */
  function Remainder(a: int, b: int): int
    requires b != 0
  {
    var n, m := if a < 0 then -a else a, if b < 0 then -b else b;
    if a < 0 then -(n % m) else n % m
  }

  /** A remainder of 32-bit ints that is not defined: by zero, or of the smallest by -1. */
  predicate ModTraps(a: int, b: int) {
    b == 0 || (a == -0x8000_0000 && b == -1)
  }

  function ArithOp<D>(env: Env<D>, op: Op, t: Type, left: Cell<D>, right: Cell<D>): Outcome<D> {
    if left.value == None || right.value == None then UnsetOperand
    else if !Numeric(left.type_) || !Numeric(right.type_) then TypeError
    else
      var d0, d1 := Promote(env, left.type_, left.value.value), Promote(env, right.type_, right.value.value);
      match op
      case Plus => ArithResult(env, t, env.add(d0, d1))
      case Sub => ArithResult(env, t, env.sub(d0, d1))
      case Mut => ArithResult(env, t, env.mul(d0, d1))
      case Div => ArithResult(env, t, env.div(d0, d1))
      case Mod =>
        if ModTraps(env.toInt(d0), env.toInt(d1)) then Trap
        else ArithResult(env, t, env.fromInt(Remainder(env.toInt(d0), env.toInt(d1))))
      case _ => TypeError
  }

  function ArithResult<D>(env: Env<D>, t: Type, d: D): Outcome<D> {
    match t
    case Int => Done(Cell(Arith, t, Some(I(env.toInt(d)))))
    case Long => Done(Cell(Arith, t, Some(L(env.toLong(d)))))
    case Double => Done(Cell(Arith, t, Some(F(d))))
    case _ => TypeError
  }

  predicate Comparison(op: Op) {
    op == Lt || op == Le || op == Gt || op == Ge || op == Eq || op == Neq
  }

  function CompareStrings<D>(env: Env<D>, op: Op, a: string, b: string): int {
    var c := env.compare(a, b);
    match op
    case Lt => Truth(c < 0)
    case Le => Truth(c <= 0)
    case Gt => Truth(c > 0)
    case Ge => Truth(c >= 0)
    case Eq => Truth(c == 0)
    case _ => c
  }

  function CompareDoubles<D>(env: Env<D>, op: Op, a: D, b: D): int {
    match op
    case Lt => Truth(env.less(a, b))
    case Le => Truth(env.lessEq(a, b))
    case Gt => Truth(env.less(b, a))
    case Ge => Truth(env.lessEq(b, a))
    case Eq => Truth(env.equal(a, b))
    case _ => Truth(!env.equal(a, b))
  }

  predicate SetKind(k: Kind) {
    k == MultiInt || k == MultiFloat || k == MultiString || k == SetId
  }

  function LogicOp<D>(env: Env<D>, op: Op, t: Type, left: Cell<D>, right: Cell<D>): Outcome<D> {
    if left.value == None || right.value == None then UnsetOperand
    else
      var v, w := left.value.value, right.value.value;
      if Comparison(op) then
        if left.type_ == String && right.type_ == String
          then LogicResult(t, CompareStrings(env, op, ReadString(v), ReadString(w)))
        else if left.type_ != String && right.type_ != String
        then LogicResult(t, CompareDoubles(env, op, Promote(env, left.type_, v), Promote(env, right.type_, w)))
        else TypeError
      else if op == Bl || op == Nbl then
        if !SetKind(right.kind) then TypeError
        else
          var set_ := ReadInt(w);
          if (left.type_ == String && env.setType(set_) == String)
            || left.type_ == (if op == Bl then env.setType(set_) else right.type_)
          then LogicResult(t, Truth(env.inSet(set_, v) == (op == Bl)))
          else TypeError
      else if op == Match then
        if left.type_ == String && right.kind == Regex
          then LogicResult(t, Truth(env.matches(ReadInt(w), ReadString(v))))
        else TypeError
      else TypeError
  }

  function LogicResult<D>(t: Type, b: int): Outcome<D> {
    Done(Cell(Logic, t, Some(B(b))))
  }

  /** What the value callback delivers, read as the type of the identifier. */
  function Load<D>(env: Env<D>, t: Type, p: int): Option<Value<D>> {
    match t
    case Bool => Some(B(env.asBool(p)))
    case Int => Some(I(env.asInt(p)))
    case Long => Some(L(env.asLong(p)))
    case Double => Some(F(env.asDouble(p)))
    case String => Some(S(env.asString(p)))
    case Pointer => Some(P(p))
    case _ => None
  }

  function EvalExtern<D>(env: Env<D>, kind: Kind, id: int): Outcome<D> {
    var t := env.getType(kind, id);
    if t == Unknown then TypeError
    else match env.getValue(kind, id)
      case None => Done(Cell(kind, t, None))
      case Some(p) =>
        if kind == SetId then Done(Cell(kind, Pointer, Some(P(p))))
        else if Load(env, t, p) == None then TypeError
        else Done(Cell(kind, t, Load(env, t, p)))
  }

  /** The meaning of an expression: big-step, children from left to right. It mentions no state. */
  function Eval<D>(e: Expr<D>, env: Env<D>): Outcome<D>
    requires Shape(e)
    decreases e
  {
    match EvalAll(e.children, env)
    case Stopped(o) => o
    case Cells(cells) => EvalNode(e, env, cells)
  }

  datatype Outcomes<D> = Cells(cells: seq<Cell<D>>) | Stopped(o: Outcome<D>)

  function EvalAll<D>(es: seq<Expr<D>>, env: Env<D>): (r: Outcomes<D>)
    requires forall i :: 0 <= i < |es| ==> Shape(es[i])
    ensures r.Cells? ==> |r.cells| == |es|
    ensures r.Stopped? ==> !r.o.Done?
    decreases es
  {
    if es == [] then Cells([])
    else match EvalAll(es[..|es| - 1], env)
      case Stopped(o) => Stopped(o)
      case Cells(cells) =>
        match Eval(es[|es| - 1], env)
        case Done(c) => Cells(cells + [c])
        case o => Stopped(o)
  }

  function EvalNode<D>(e: Expr<D>, env: Env<D>, cells: seq<Cell<D>>): Outcome<D>
    requires Shape(e) && |cells| == |e.children|
  {
    if e.kind == Rel then (if e.op == And || e.op == Or || e.op == Not then RelScan(e.op, e.type_, cells)
      else TypeError)
    else if e.kind == Arith then ArithOp(env, e.op, e.type_, cells[0], cells[1])
    else if e.kind == Logic then LogicOp(env, e.op, e.type_, cells[0], cells[1])
    else if Extern(e.kind) then EvalExtern(env, e.kind, e.id)
    else Done(Cell(e.kind, e.type_, e.init))
  }

  // ----- the type check --------------------------------------------------------------------

  /** The check at one node, from the kinds and types of its children. */
  function CheckNode<D>(e: Expr<D>): bool {
    match e.kind
    case Arith => |e.children| == 2 && CheckArith(e.op, e.children[0], e.children[1])
    case Logic => |e.children| == 2 && CheckLogic(e.op, e.children[0], e.children[1])
    case Rel => (e.op == And || e.op == Or || e.op == Not) && CheckRel(e.children)
    case _ => true
  }

  predicate CheckArith<D>(op: Op, left: Expr<D>, right: Expr<D>) {
    left.type_ == Unknown || right.type_ == Unknown ||
    ((op == Plus || op == Sub || op == Mut || op == Div || op == Mod) && Numeric(left.type_) && Numeric(right.type_))
  }

  predicate CheckLogic<D>(op: Op, left: Expr<D>, right: Expr<D>) {
    left.type_ == Unknown || right.type_ == Unknown ||
    if Comparison(op) then (left.type_ == String <==> right.type_ == String)
    else if op == Bl || op == Nbl then SetKind(right.kind) && left.type_ == right.type_
    else op == Match && left.type_ == String && right.kind == Regex
  }

  /** Operands up to the first one of unknown type. */
  predicate CheckRel<D>(children: seq<Expr<D>>) {
    children == [] || children[0].type_ == Unknown ||
    ((children[0].type_ == Bool || children[0].type_ == Int) && CheckRel(children[1..]))
  }

  /** The check of a whole tree, children first. */
  predicate Check<D>(e: Expr<D>)
    decreases e
  {
    (forall i :: 0 <= i < |e.children| ==> Check(e.children[i])) && CheckNode(e)
  }

  // ----- type soundness --------------------------------------------------------------------

  /** Every node has the type the evaluator will give it, and a value at every leaf. */
  ghost predicate Resolved<D>(e: Expr<D>, env: Env<D>)
    decreases e
  {
    && (forall i :: 0 <= i < |e.children| ==> Resolved(e.children[i], env))
    && (if e.kind == Rel || e.kind == Logic then e.type_ == Bool
        else if e.kind == Arith then Numeric(e.type_)
        else if Extern(e.kind) then
          && e.type_ == (if e.kind == SetId then Pointer else env.getType(e.kind, e.id))
          && e.type_ != Unknown && e.type_ != Char && env.getType(e.kind, e.id) != Unknown
          && env.getValue(e.kind, e.id).Some?
        else e.type_ != Unknown && e.init.Some? && Fits(e.type_, e.init.value))
  }

  /** No membership tests, which the check and the evaluator type differently. */
  ghost predicate NoSets<D>(e: Expr<D>)
    decreases e
  {
    e.op != Bl && e.op != Nbl && forall i :: 0 <= i < |e.children| ==> NoSets(e.children[i])
  }

  /** A cell with a value of the type the tree says, written as that type. */
  predicate Settled<D>(e: Expr<D>, c: Cell<D>) {
    c.kind == e.kind && c.type_ == e.type_ && c.value.Some? && Fits(c.type_, c.value.value)
  }

  lemma {:induction false} RelSound<D>(op: Op, t: Type, children: seq<Expr<D>>, cells: seq<Cell<D>>)
    requires (op == And || op == Or || op == Not) && t == Bool && |cells| == |children| && CheckRel(children)
    requires forall i :: 0 <= i < |children| ==> children[i].type_ != Unknown && Settled(children[i], cells[i])
    ensures RelScan(op, t, cells).Done? && RelScan(op, t, cells).cell.value.Some?
    ensures RelScan(op, t, cells).cell.kind == Rel && RelScan(op, t, cells).cell.type_ == Bool
      && RelScan(op, t, cells).cell.value.value.B?
  {
    if cells != [] {
      assert Settled(children[0], cells[0]);
      RelSound(op, t, children[1..], cells[1..]);
    }
  }

  /** A remainder whose operands get values that trap. */
  ghost predicate BadMod<D>(e: Expr<D>, env: Env<D>)
    requires Shape(e)
  {
    e.kind == Arith && e.op == Mod && match EvalAll(e.children, env)
      case Stopped(_) => false
      case Cells(cells) =>
        && cells[0].value.Some? && Numeric(cells[0].type_) && cells[1].value.Some? && Numeric(cells[1].type_)
        && ModTraps(env.toInt(Promote(env, cells[0].type_, cells[0].value.value)),
                    env.toInt(Promote(env, cells[1].type_, cells[1].value.value)))
  }

  /** There is such a remainder somewhere in the expression. */
  ghost predicate HasBadMod<D>(e: Expr<D>, env: Env<D>)
    requires Shape(e)
    decreases e
  {
    BadMod(e, env) || exists i :: 0 <= i < |e.children| && HasBadMod(e.children[i], env)
  }

  lemma NodeSound<D>(e: Expr<D>, env: Env<D>, cells: seq<Cell<D>>)
    requires Shape(e) && Resolved(e, env) && NoSets(e) && CheckNode(e) && EvalAll(e.children, env) == Cells(cells)
    requires forall i :: 0 <= i < |e.children| ==> e.children[i].type_ != Unknown && Settled(e.children[i], cells[i])
    ensures var o := EvalNode(e, env, cells);
      if BadMod(e, env) then o == Trap else o.Done? && Settled(e, o.cell)
  {
    hide EvalAll, Eval;
    if e.kind == Rel {
      RelSound(e.op, e.type_, e.children, cells);
    } else if e.kind == Arith {
      ArithSound(e, env, cells);
    } else if e.kind == Logic {
      assert Settled(e.children[0], cells[0]) && Settled(e.children[1], cells[1]);
    }
  }

  lemma ArithSound<D>(e: Expr<D>, env: Env<D>, cells: seq<Cell<D>>)
    requires Shape(e) && e.kind == Arith && Resolved(e, env) && CheckNode(e) && EvalAll(e.children, env) == Cells(cells)
    requires forall i :: 0 <= i < |e.children| ==> e.children[i].type_ != Unknown && Settled(e.children[i], cells[i])
    ensures var o := EvalNode(e, env, cells);
      if BadMod(e, env) then o == Trap else o.Done? && Settled(e, o.cell)
  {
    hide EvalAll, Eval, Remainder, Promote;
    assert Settled(e.children[0], cells[0]) && Settled(e.children[1], cells[1]);
  }

  lemma ResolvedKnown<D>(e: Expr<D>, env: Env<D>)
    requires Resolved(e, env)
    ensures e.type_ != Unknown
  {}

  /** What passes the check with all types resolved and all leaves set runs into no type error. It
      gets a value of its type, unless a remainder in it is by zero or of the smallest int by -1. */
  lemma {:induction false} CheckedIsSound<D>(e: Expr<D>, env: Env<D>)
    requires Shape(e) && Resolved(e, env) && NoSets(e) && Check(e)
    ensures if HasBadMod(e, env) then Eval(e, env) == Trap else Eval(e, env).Done? && Settled(e, Eval(e, env).cell)
    decreases e, |e.children| + 1
  {
    hide BadMod;
    ChildrenSound(e, env, |e.children|);
    assert e.children[..|e.children|] == e.children;
    var r := EvalAll(e.children, env);
    if r.Cells? {
      forall i | 0 <= i < |e.children| ensures e.children[i].type_ != Unknown {
        ResolvedKnown(e.children[i], env);
      }
      NodeSound(e, env, r.cells);
    } else {
      NoBadModHere(e, env);
    }
  }

  lemma NoBadModHere<D>(e: Expr<D>, env: Env<D>)
    requires Shape(e) && EvalAll(e.children, env).Stopped?
    ensures !BadMod(e, env)
  {}

  lemma ChildParts<D>(e: Expr<D>, env: Env<D>, i: nat)
    requires Shape(e) && Resolved(e, env) && NoSets(e) && Check(e) && i < |e.children|
    ensures var c := e.children[i]; Shape(c) && Resolved(c, env) && NoSets(c) && Check(c)
  {}

  /** The first n children all have values, or one of them traps. */
  ghost predicate SettledTo<D>(e: Expr<D>, env: Env<D>, n: nat)
    requires Shape(e) && n <= |e.children|
  {
    var r := EvalAll(e.children[..n], env);
    if exists i :: 0 <= i < n && HasBadMod(e.children[i], env) then r == Stopped(Trap)
    else r.Cells? && forall i :: 0 <= i < n ==> Settled(e.children[i], r.cells[i])
  }

  lemma {:induction false} ChildrenSound<D>(e: Expr<D>, env: Env<D>, n: nat)
    requires Shape(e) && Resolved(e, env) && NoSets(e) && Check(e) && n <= |e.children|
    ensures SettledTo(e, env, n)
    decreases e, n
  {
    hide Resolved, NoSets, Check, Settled, HasBadMod, Eval, EvalAll, SettledTo;
    if n == 0 {
      SettledNone(e, env);
    } else {
      ChildParts(e, env, n - 1);
      ChildrenSound(e, env, n - 1);
      CheckedIsSound(e.children[n - 1], env);
      OneMoreChild(e, env, n - 1);
    }
  }

  lemma SettledNone<D>(e: Expr<D>, env: Env<D>)
    requires Shape(e)
    ensures SettledTo(e, env, 0)
  {}

  lemma OneMoreChild<D>(e: Expr<D>, env: Env<D>, n: nat)
    requires Shape(e) && n < |e.children| && SettledTo(e, env, n)
    requires var c := e.children[n];
      if HasBadMod(c, env) then Eval(c, env) == Trap else Eval(c, env).Done? && Settled(c, Eval(c, env).cell)
    ensures SettledTo(e, env, n + 1)
  {
    hide Settled, HasBadMod, Eval;
    assert e.children[..n + 1][..n] == e.children[..n];
    if HasBadMod(e.children[n], env) {
      assert exists i :: 0 <= i < n + 1 && HasBadMod(e.children[i], env);
    }
  }

  /** The same expression, up to the types noted at identifiers. */
  ghost predicate SameButTypes<D>(e: Expr<D>, f: Expr<D>)
    decreases e
  {
    && e.kind == f.kind && e.op == f.op && e.id == f.id && (Extern(e.kind) || (e.type_ == f.type_ && e.init == f.init))
    && |e.children| == |f.children| && forall i :: 0 <= i < |e.children| ==> SameButTypes(e.children[i], f.children[i])
  }

  /** Types noted at identifiers do not matter to the meaning. */
  lemma {:induction false} SameMeaning<D>(e: Expr<D>, f: Expr<D>, env: Env<D>)
    requires Shape(e) && Shape(f) && SameButTypes(e, f)
    ensures Eval(e, env) == Eval(f, env)
    decreases e, |e.children| + 1
  {
    SameChildren(e, f, env, |e.children|);
    assert e.children[..|e.children|] == e.children && f.children[..|f.children|] == f.children;
  }

  lemma {:induction false} SameChildren<D>(e: Expr<D>, f: Expr<D>, env: Env<D>, n: nat)
    requires Shape(e) && Shape(f) && SameButTypes(e, f) && n <= |e.children|
    ensures EvalAll(e.children[..n], env) == EvalAll(f.children[..n], env)
    decreases e, n
  {
    if n > 0 {
      SameChildren(e, f, env, n - 1);
      SameMeaning(e.children[n - 1], f.children[n - 1], env);
      assert e.children[..n][..n - 1] == e.children[..n - 1] && f.children[..n][..n - 1] == f.children[..n - 1];
    }
  }
}
