/** The expression tree in memory: evaluated in place, node by node after its children. */
module Calc {
  import opened Options
  import opened CalcSpec
  import opened CalcLaws

  /** A tree node. Children, kind, operator and identifier are fixed by the parser; the evaluator
      overwrites type, indicator and value. */
  class Node<D(!new)> {
    const kind: Kind
    const op: Op
    const id: int
    const children: seq<Node<D>>
    var type_: Type
    var isSet: bool
    var value: Value<D>
    ghost const expr: Expr<D>
    ghost const repr: set<Node<D>>

    constructor (kind: Kind, op: Op, id: int, t: Type, init: Option<Value<D>>, children: seq<Node<D>>)
      requires Separate(children) && forall i :: 0 <= i < |children| ==> children[i].Wf()
      ensures Wf() && fresh(this) && repr == {this} + Union(children)
      ensures expr == Expr(kind, op, id, t, init, Exprs(children))
      ensures type_ == t && isSet == init.Some? && (init.Some? ==> value == init.value)
    {
      this.kind, this.op, this.id, this.children, type_ := kind, op, id, children, t;
      isSet := init.Some?;
      value := if init.Some? then init.value else B(0);
      expr := Expr(kind, op, id, t, init, Exprs(children));
      repr := {this} + Union(children);
      new;
      assert forall n :: n in Union(children) ==> n != this;
    }

    /** The node heads a tree: its parts share no nodes. */
    ghost predicate Wf()
      decreases expr
    {
      && this in repr && |children| == |expr.children|
      && expr == Expr(kind, op, id, expr.type_, expr.init, expr.children)
      && (forall i :: 0 <= i < |children| ==>
           children[i].expr == expr.children[i] && children[i].repr <= repr && this !in children[i].repr
             && children[i].Wf())
      && Separate(children)
    }

    /** The fields the evaluator relies on: constants and operators as the parser left them,
        identifiers with no type yet or a type they always get. */
    ghost predicate Intact(getType: (Kind, int) -> Type)
      reads this
    {
      if Extern(kind) then type_ == Unknown || type_ == getType(kind, id)
        || (kind == SetId && type_ == Pointer && getType(kind, id) != Unknown)
      else type_ == expr.type_ && (Operator() || (isSet == expr.init.Some? && (isSet ==> value == expr.init.value)))
    }

    predicate Operator() {
      kind == Rel || kind == Arith || kind == Logic
    }

    ghost predicate Ready(getType: (Kind, int) -> Type)
      requires Wf()
      reads repr
      decreases expr
    {
      Intact(getType) && forall i :: 0 <= i < |children| ==> children[i].Ready(getType)
    }

    /** The node as an expression, with the type it has now. */
    ghost predicate Looks(e: Expr<D>)
      reads this
    {
      kind == e.kind && op == e.op && id == e.id && type_ == e.type_ && |children| == |e.children|
    }

    ghost predicate LooksAll(e: Expr<D>)
      requires Wf()
      reads repr
      decreases expr
    {
      Looks(e) && forall i :: 0 <= i < |children| ==> children[i].LooksAll(e.children[i])
    }

    /** The value, if it is set. */
    function Held(): Option<Value<D>>
      reads this
    {
      if isSet then Some(value) else None
    }

    /** In exact arithmetic the node holds what its operator makes of its operands. */
    ghost predicate Obeys(env: Env<D>, ok: bool)
      requires Shape(expr)
      reads this
    {
      forall num: D -> real :: Exact(env, num) ==> Lawful(expr, env, num, ok, Held())
    }

    /** The node shows the outcome of its evaluation. */
    ghost predicate Shows(c: Cell<D>)
      reads this
    {
      kind == c.kind && isSet == c.value.Some? && (isSet ==> type_ == c.type_ && value == c.value.value)
    }
  }

  ghost predicate Separate<D(!new)>(ns: seq<Node<D>>) {
    forall i, j :: 0 <= i < j < |ns| ==> ns[i].repr !! ns[j].repr
  }

  ghost function Union<D(!new)>(ns: seq<Node<D>>): set<Node<D>> {
    set i, n | 0 <= i < |ns| && n in ns[i].repr :: n
  }

  ghost function Exprs<D(!new)>(ns: seq<Node<D>>): seq<Expr<D>> {
    seq(|ns|, i requires 0 <= i < |ns| => ns[i].expr)
  }

  /** The children show the cells. */
  ghost predicate AllShow<D(!new)>(ns: seq<Node<D>>, cells: seq<Cell<D>>)
    reads ns
  {
    |cells| <= |ns| && forall i :: 0 <= i < |cells| ==> ns[i].Shows(cells[i])
  }

  class Calc<D(!new)> {
    var status: int

    constructor ()
      ensures status == 0
    {
      status := 0;
    }

    /** What a step did: 0 and the outcome shown by the node, or -1 with the status as the outcome says. */
    twostate predicate Did(n: Node<D>, o: Outcome<D>, ret: int)
      reads this, n
    {
      match o
      case Done(c) => ret == 0 && n.Shows(c) && status == old(status)
      case UnsetOperand => ret == -1 && status == old(status)
      case TypeError => ret == -1 && status == -1
      case Trap => false
    }

    /** The same of a step that has started with the node's indicator unset. */
    twostate predicate DidHere(n: Node<D>, o: Outcome<D>, ret: int)
      reads this, n
    {
      Did(n, o, ret) && (ret != 0 ==> !n.isSet)
    }

    /** _kr_calc_tree_eval_rel. */
    method EvalRel(t: Node<D>, ghost cells: seq<Cell<D>>) returns (ret: int)
      requires t.kind == Rel && t !in t.children && |cells| == |t.children| && AllShow(t.children, cells)
      modifies this, t`isSet, t`value
      ensures DidHere(t, if t.op == And || t.op == Or || t.op == Not then RelScan(t.op, t.type_, cells)
        else TypeError, ret)
      ensures TruthLaws(t.op, cells, ret == 0, t.Held())
    {
      TruthAlways(t.op, t.type_, cells);
      hide TruthLaws;
      t.isSet := false;
      if t.op != And && t.op != Or && t.op != Not {
        status := -1;
        return -1;
      }
      var b := Truth(t.op != Or);
      var i := 0;
      while i < |t.children|
        invariant i <= |t.children| && b == Truth(t.op != Or) && status == old(status)
        invariant AllShow(t.children, cells)
        invariant RelScan(t.op, t.type_, cells) == RelScan(t.op, t.type_, cells[i..])
      {
        var child := t.children[i];
        assert child.Shows(cells[i]);
        if !child.isSet {
          return -1;
        }
        if child.type_ != Bool && child.type_ != Int {
          status := -1;
          return -1;
        }
        if (ReadInt(child.value) != 0) == (t.op != And) {
          b := Truth(t.op == Or);
          break;
        }
        i := i + 1;
      }
      t.value := B(b);
      t.isSet := true;
      return 0;
    }

    /** _kr_calc_tree_eval_arith, but for remainders that trap. */
    method EvalArith(t: Node<D>, env: Env<D>, ghost cells: seq<Cell<D>>) returns (ret: int)
      requires t.kind == Arith && |t.children| == 2 == |cells| && t !in t.children && AllShow(t.children, cells)
      requires ArithOp(env, t.op, t.type_, cells[0], cells[1]) != Trap
      modifies this, t`isSet, t`value
      ensures DidHere(t, ArithOp(env, t.op, t.type_, cells[0], cells[1]), ret)
    {
      t.isSet := false;
      var left, right := t.children[0], t.children[1];
      assert left.Shows(cells[0]) && right.Shows(cells[1]);
      if !left.isSet || !right.isSet {
        return -1;
      }
      if !Numeric(left.type_) || !Numeric(right.type_) {
        status := -1;
        return -1;
      }
      var d0 := Promote(env, left.type_, left.value);
      var d1 := Promote(env, right.type_, right.value);
      var d: D;
      match t.op {
        case Plus => d := env.add(d0, d1);
        case Sub => d := env.sub(d0, d1);
        case Mut => d := env.mul(d0, d1);
        case Div => d := env.div(d0, d1);
        case Mod => d := env.fromInt(Remainder(env.toInt(d0), env.toInt(d1)));
        case _ =>
          status := -1;
          return -1;
      }
      match t.type_ {
        case Int => t.value := I(env.toInt(d));
        case Long => t.value := L(env.toLong(d));
        case Double => t.value := F(d);
        case _ =>
          status := -1;
          return -1;
      }
      t.isSet := true;
      return 0;
    }

    /** The truth value of a comparison, a membership test or a match; none on a type error. */
    method Decide(t: Node<D>, env: Env<D>, ghost cells: seq<Cell<D>>) returns (b: Option<int>)
      requires t.kind == Logic && |t.children| == 2 == |cells| && AllShow(t.children, cells)
      requires t.children[0].isSet && t.children[1].isSet
      ensures LogicOp(env, t.op, t.type_, cells[0], cells[1]) ==
        if b == None then TypeError else LogicResult(t.type_, b.value)
    {
      var left, right := t.children[0], t.children[1];
      assert left.Shows(cells[0]) && right.Shows(cells[1]);
      var d0 := Promote(env, left.type_, left.value);
      var d1 := Promote(env, right.type_, right.value);
      if Comparison(t.op) {
        if left.type_ == String && right.type_ == String {
          return Some(CompareStrings(env, t.op, ReadString(left.value), ReadString(right.value)));
        } else if left.type_ != String && right.type_ != String {
          return Some(CompareDoubles(env, t.op, d0, d1));
        }
      } else if t.op == Bl || t.op == Nbl {
        if SetKind(right.kind) {
          var set_ := ReadInt(right.value);
          if left.type_ == String && env.setType(set_) == String {
            return Some(Truth(env.inSet(set_, left.value) == (t.op == Bl)));
          } else if left.type_ == (if t.op == Bl then env.setType(set_) else right.type_) {
            return Some(Truth(env.inSet(set_, left.value) == (t.op == Bl)));
          }
        }
      } else if t.op == Match {
        if left.type_ == String && right.kind == Regex {
          return Some(Truth(env.matches(ReadInt(right.value), ReadString(left.value))));
        }
      }
      return None;
    }

    /** _kr_calc_tree_eval_logic. */
    method EvalLogic(t: Node<D>, env: Env<D>, ghost cells: seq<Cell<D>>) returns (ret: int)
      requires t.kind == Logic && |t.children| == 2 == |cells| && t !in t.children && AllShow(t.children, cells)
      modifies this, t`isSet, t`value
      ensures DidHere(t, LogicOp(env, t.op, t.type_, cells[0], cells[1]), ret)
      ensures Obeys(env, Logic, t.op, t.type_, cells, ret == 0, t.Held())
    {
      OutcomeObeys(env, Logic, t.op, t.type_, cells, LogicOp(env, t.op, t.type_, cells[0], cells[1]));
      hide Obeys;
      t.isSet := false;
      var left, right := t.children[0], t.children[1];
      assert left.Shows(cells[0]) && right.Shows(cells[1]);
      if !left.isSet || !right.isSet {
        return -1;
      }
      hide LogicOp;
      var b := Decide(t, env, cells);
      if b == None {
        status := -1;
        return -1;
      }
      t.isSet := true;
      t.value := B(b.value);
      return 0;
    }

    /** _kr_calc_tree_eval_extern: the type is asked for only once. */
    method EvalExtern(t: Node<D>, env: Env<D>) returns (ret: int)
      requires Extern(t.kind) && t.Intact(env.getType)
      modifies this, t
      ensures t.Intact(env.getType) && DidHere(t, CalcSpec.EvalExtern(env, t.kind, t.id), ret)
    {
      t.isSet := false;
      if t.type_ == Unknown {
        t.type_ := env.getType(t.kind, t.id);
        if t.type_ == Unknown {
          status := -1;
          return -1;
        }
      }
      var val := env.getValue(t.kind, t.id);
      if val != None {
        if t.kind == SetId {
          t.type_ := Pointer;
          t.value := P(val.value);
          t.isSet := true;
          return 0;
        }
        var v := Load(env, t.type_, val.value);
        if v == None {
          status := -1;
          return -1;
        }
        t.value := v.value;
        t.isSet := true;
      }
      return 0;
    }

    /** _kr_calc_tree_eval: one node, after its children. */
    method EvalOne(t: Node<D>, env: Env<D>, ghost cells: seq<Cell<D>>) returns (ret: int)
      requires t.Wf() && Shape(t.expr) && t.Intact(env.getType) && |cells| == |t.children| && AllShow(t.children, cells)
      requires EvalNode(t.expr, env, cells) != Trap
      modifies this, t
      ensures t.Intact(env.getType) && DidHere(t, EvalNode(t.expr, env, cells), ret)
    {
      if t.kind == Rel {
        ret := EvalRel(t, cells);
      } else if t.kind == Arith {
        ret := EvalArith(t, env, cells);
      } else if t.kind == Logic {
        ret := EvalLogic(t, env, cells);
      } else if Extern(t.kind) {
        ret := EvalExtern(t, env);
      } else {
        ret := 0;
      }
    }

    /** One child of a tree whose children before it are done. */
    method EvalChild(t: Node<D>, i: nat, env: Env<D>, ghost cells: seq<Cell<D>>) returns (ret: int)
      requires t.Wf() && Shape(t.expr) && t.Ready(env.getType) && i < |t.children|
      requires |cells| == i && AllShow(t.children, cells) && Eval(t.expr.children[i], env) != Trap
      modifies this, t.children[i].repr
      ensures t.Ready(env.getType) && Did(t.children[i], Eval(t.expr.children[i], env), ret)
      ensures Eval(t.expr.children[i], env).Done? ==> AllShow(t.children, cells + [Eval(t.expr.children[i], env).cell])
      decreases t.expr, 0
    {
      var child := t.children[i];
      ret := EvalTree(child, env);
      forall j | 0 <= j < |t.children| && j != i ensures t.children[j].repr !! child.repr {}
    }

    /** The children of a tree, from the left, until one fails. */
    method EvalChildren(t: Node<D>, env: Env<D>) returns (ret: int, ghost cells: seq<Cell<D>>)
      requires t.Wf() && Shape(t.expr) && t.Ready(env.getType) && Eval(t.expr, env) != Trap
      modifies this, t.repr
      ensures t.Ready(env.getType) && t.isSet == old(t.isSet) && t.value == old(t.value) && t.type_ == old(t.type_)
      ensures match EvalAll(t.expr.children, env)
        case Cells(cs) => ret == 0 && cs == cells && AllShow(t.children, cells) && status == old(status)
        case Stopped(o) => Did(t, o, ret) && ret == -1
      decreases t.expr, 1
    {
      ghost var es := t.expr.children;
      cells := [];
      assert es[..0] == [] && EvalAll(es[..0], env) == Cells(cells);
      hide Eval, EvalAll, EvalNode, Node.Obeys;
      for i := 0 to |t.children|
        invariant t.Ready(env.getType) && status == old(status)
        invariant t.isSet == old(t.isSet) && t.value == old(t.value) && t.type_ == old(t.type_)
        invariant |cells| == i && EvalAll(es[..i], env) == Cells(cells) && AllShow(t.children, cells)
      {
        StopsTree(t.expr, env, i);
        ghost var o := Eval(es[i], env);
        ret := EvalChild(t, i, env, cells);
        if ret != 0 {
          return -1, cells;
        }
        cells := cells + [o.cell];
      }
      assert es[..|es|] == es;
      return 0, cells;
    }

    /** kr_calc_tree_eval: whatever the tree was used for before, the return code is that of the
        big-step meaning, and after a success the root's indicator and value are. After a failure
        the root is unset if it was its own; if a child failed the root is left as it was before,
        with the indicator and value of an earlier evaluation. In exact arithmetic the value is what
        the operator makes of the operands. */
    method EvalTree(t: Node<D>, env: Env<D>) returns (ret: int)
      requires t.Wf() && Shape(t.expr) && t.Ready(env.getType) && Eval(t.expr, env) != Trap
      modifies this, t.repr
      ensures t.Ready(env.getType) && Did(t, Eval(t.expr, env), ret)
      ensures if EvalAll(t.expr.children, env).Stopped?
        then ret != 0 && t.isSet == old(t.isSet) && t.value == old(t.value) && t.type_ == old(t.type_)
        else ret != 0 ==> !t.isSet
      ensures t.Obeys(env, ret == 0)
      decreases t.expr, 2
    {
      hide EvalAll, EvalNode, Node.Obeys;
      ghost var cells: seq<Cell<D>>;
      ret, cells := EvalChildren(t, env);
      if ret == 0 {
        ret := EvalOne(t, env, cells);
      }
      Obeying(t, env, ret);
    }

    /** A node that shows its outcome obeys the laws. */
    lemma Obeying(t: Node<D>, env: Env<D>, ret: int)
      requires Shape(t.expr) && (ret == 0 <==> Eval(t.expr, env).Done?)
      requires ret == 0 ==> t.Shows(Eval(t.expr, env).cell)
      ensures t.Obeys(env, ret == 0)
    {
      hide Exact, Lawful;
      forall num: D -> real | Exact(env, num) ensures Lawful(t.expr, env, num, ret == 0, t.Held()) {
        EvalObeys(t.expr, env, num, ret == 0, t.Held());
      }
    }

    /** Any number of evaluations of one tree, with the same identifier types throughout: each
        returns what its own callbacks make of the expression. */
    method EvalMany(t: Node<D>, envs: seq<Env<D>>) returns (rets: seq<int>)
      requires t.Wf() && Shape(t.expr) && envs != [] && t.Ready(envs[0].getType)
      requires forall k :: 0 <= k < |envs| ==> envs[k].getType == envs[0].getType && Eval(t.expr, envs[k]) != Trap
      modifies this, t.repr
      ensures |rets| == |envs| && forall k :: 0 <= k < |envs| ==> rets[k] == if Eval(t.expr, envs[k]).Done? then 0
        else -1
      ensures var last := Eval(t.expr, envs[|envs| - 1]); last.Done? ==> t.Shows(last.cell)
      ensures t.Obeys(envs[|envs| - 1], rets[|envs| - 1] == 0)
    {
      hide Shape, Eval, Node.Wf, Node.Ready, Node.Obeys;
      rets := [];
      for k := 0 to |envs|
        invariant |rets| == k && t.Ready(envs[0].getType)
        invariant forall j :: 0 <= j < k ==> rets[j] == if Eval(t.expr, envs[j]).Done? then 0 else -1
        invariant k > 0 && Eval(t.expr, envs[k - 1]).Done? ==> t.Shows(Eval(t.expr, envs[k - 1]).cell)
        invariant k > 0 ==> t.Obeys(envs[k - 1], rets[k - 1] == 0)
      {
        var ret := EvalTree(t, envs[k]);
        rets := rets + [ret];
      }
    }

    /** _kr_calc_tree_check, for an expression with the types the nodes have now. */
    method CheckOne(t: Node<D>, ghost e: Expr<D>) returns (ret: int)
      requires t.Looks(e) && forall i :: 0 <= i < |t.children| ==> t.children[i].Looks(e.children[i])
      modifies this
      ensures ret == (if CheckNode(e) then 0 else -1) && status == if CheckNode(e) then old(status) else -1
    {
      var ok := true;
      match t.kind {
        case Arith =>
          if |t.children| != 2 {
            ok := false;
          } else {
            var left, right := t.children[0], t.children[1];
            if left.type_ != Unknown && right.type_ != Unknown {
              ok := (t.op == Plus || t.op == Sub || t.op == Mut || t.op == Div || t.op == Mod) && Numeric(left.type_)
                && Numeric(right.type_);
            }
          }
        case Logic =>
          if |t.children| != 2 {
            ok := false;
          } else {
            ok := CheckComparison(t.op, t.children[0], t.children[1], e.children[0], e.children[1]);
          }
        case Rel =>
          if t.op == And || t.op == Or || t.op == Not {
            ok := CheckOperands(t, e);
          } else {
            ok := false;
          }
        case _ =>
      }
      if !ok {
        status := -1;
        return -1;
      }
      return 0;
    }

    method CheckComparison(op: Op, left: Node<D>, right: Node<D>, ghost l: Expr<D>, ghost r: Expr<D>) returns (ok: bool)
      requires left.Looks(l) && right.Looks(r)
      ensures ok == CheckLogic(op, l, r)
    {
      if left.type_ == Unknown || right.type_ == Unknown {
        return true;
      }
      if Comparison(op) {
        return !((left.type_ == String && right.type_ != String) || (right.type_ == String && left.type_ != String));
      }
      if op == Bl || op == Nbl {
        return !(!SetKind(right.kind) || left.type_ != right.type_);
      }
      if op == Match {
        return !(left.type_ != String || right.kind != Regex);
      }
      return false;
    }

    method CheckOperands(t: Node<D>, ghost e: Expr<D>) returns (ok: bool)
      requires |t.children| == |e.children| && forall i :: 0 <= i < |t.children| ==> t.children[i].Looks(e.children[i])
      ensures ok == CheckRel(e.children)
    {
      var i := 0;
      assert e.children[0..] == e.children;
      while i < |t.children|
        invariant i <= |t.children| && CheckRel(e.children) == CheckRel(e.children[i..])
      {
        var child := t.children[i];
        assert child.Looks(e.children[i]) && e.children[i..][1..] == e.children[i + 1..];
        if child.type_ == Unknown {
          return true;
        }
        if child.type_ != Bool && child.type_ != Int {
          return false;
        }
        i := i + 1;
      }
      return true;
    }

    /** kr_calc_tree_check accepts exactly what the check of the expression accepts. */
    method CheckTree(t: Node<D>, ghost e: Expr<D>) returns (ret: int)
      requires t.Wf() && t.LooksAll(e)
      modifies this
      ensures ret == if Check(e) then 0 else -1
      ensures status == if Check(e) then old(status) else -1
      decreases t.expr
    {
      for i := 0 to |t.children|
        invariant status == old(status) && forall j :: 0 <= j < i ==> Check(e.children[j])
      {
        ret := CheckTree(t.children[i], e.children[i]);
        if ret != 0 {
          return -1;
        }
      }
      ret := CheckOne(t, e);
    }

    /** A checked tree with resolved types and set leaves evaluates: no error, and a value at the root. */
    method CheckThenEval(t: Node<D>, env: Env<D>, ghost e: Expr<D>) returns (checked: int, ret: int)
      requires t.Wf() && t.LooksAll(e) && t.Ready(env.getType) && Shape(e) && Shape(t.expr) && SameButTypes(e, t.expr)
      requires Resolved(e, env) && NoSets(e) && !HasBadMod(e, env)
      modifies this, t.repr
      ensures checked == if Check(e) then 0 else -1
      ensures checked == 0 ==>
        ret == 0 && t.isSet && t.type_ == e.type_ && Fits(t.type_, t.value) && status == old(status)
    {
      checked := CheckTree(t, e);
      ret := -1;
      if checked == 0 {
        CheckedIsSound(e, env);
        SameMeaning(e, t.expr, env);
        ret := EvalTree(t, env);
      }
    }
  }

  /** The next child of a tree: a failure is the tree's, a success one more cell. */
  lemma StopsTree<D>(e: Expr<D>, env: Env<D>, i: nat)
    requires Shape(e) && i < |e.children| && EvalAll(e.children[..i], env).Cells?
    ensures var o := Eval(e.children[i], env);
      if o.Done? then EvalAll(e.children[..i + 1], env) == Cells(EvalAll(e.children[..i], env).cells + [o.cell])
      else EvalAll(e.children, env) == Stopped(o) && Eval(e, env) == o
  {
    StopsAt(e.children, env, i);
    assert e.children[..i + 1][..i] == e.children[..i];
    hide EvalNode;
  }

  /** The first child that does not get done decides for its parent. */
  lemma {:induction false} StopsAt<D>(es: seq<Expr<D>>, env: Env<D>, i: nat)
    requires i < |es| && (forall j :: 0 <= j < |es| ==> Shape(es[j])) && EvalAll(es[..i], env).Cells?
    ensures !Eval(es[i], env).Done? ==> EvalAll(es, env) == Stopped(Eval(es[i], env))
    decreases |es|
  {
    var n := |es| - 1;
    if i < n {
      assert es[..n][..i] == es[..i];
      StopsAt(es[..n], env, i);
    }
  }
}
