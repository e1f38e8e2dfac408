/** The stacks of the rule parser: what lies on them, and what a reduction does to them. */
module CalcStack {
  import opened Options
  import opened Sequences
  import opened CalcSpec
  import opened CalcTables
  import opened CalcGrammar

  // ----- one reduction ---------------------------------------------------------------------

  /** What the stack entry of state q stands for. */
  predicate LevelOk<D>(q: int, c: Parse<D>) {
    if q == 12 then c.Line? && IsRule(c.inner) && c.semi.kind == SEMI
    else if AtRule(q) then IsRule(c)
    else if q == 20 then IsUnary(c)
    else if AtSubrule(q) then IsSubrule(c)
    else if AtSum(q) then IsTerm(c)
    else if AtProduct(q) then IsProduct(c)
    else if q == 16 || 56 <= q <= 58 then IsPrimary(c)
    else if q == 50 || q == 51 then IsSet(c)
    else if q == 53 then IsRegex(c)
    else c.Tok? && c.t.kind == Stos(q)
  }

  /** State q with its parse and value, on state p. */
  ghost predicate EntryOk<D>(neg: D -> D, p: int, q: int, c: Parse<D>, v: Expr<D>) {
    0 < q < NSTATES && Edge(p, q) && LevelOk(q, c) && (Stos(q) > NTOKENS ==> v == TreeOf(neg, c))
  }

  /** The operator of a binary rule; 0 for the others. */
  function Operator(r: int): int {
    match r
    case 3 => OR case 4 => AND
    case 7 => LT case 8 => LE case 9 => GT case 10 => GE case 11 => EQ case 12 => NEQ
    case 13 => BL case 14 => NBL case 15 => MATCH
    case 17 => PLUS case 18 => SUB case 19 => MUT case 20 => DIV case 21 => MOD
    case _ => 0
  }

  /** The value of the semantic action of a rule: from the values popped and, in the actions that
      say so, from the scanner's last leaf. */
  function Action<D>(neg: D -> D, r: int, args: seq<Expr<D>>, yylval: Expr<D>): Expr<D>
    requires 2 <= r <= 36 && |args| == Len(r)
  {
    OperatorLength(r);
    if Operator(r) != 0 then Join(Operator(r), args[0], args[2])
    else if r == 5 then Invert(args[1])
    else if r == 27 || r == 29 then Negate(neg, yylval)
    else if 23 <= r <= 35 then yylval
    else if r == 36 then args[1]
    else args[0]
  }

  lemma OperatorLength(r: int)
    ensures Operator(r) != 0 ==> Len(r) == 3
    ensures r == 5 || r == 27 || r == 29 ==> Len(r) == 2
    ensures r == 36 ==> Len(r) == 3
    ensures 2 <= r <= 36 ==> Len(r) >= 1
  {}

  /** The parse made by a rule. */
  function Build<D>(r: int, cs: seq<Parse<D>>): Parse<D>
    requires 2 <= r <= 36 && |cs| == Len(r)
  {
    if r == 2 && cs[1].Tok? then Line(cs[0], cs[1].t)
    else if r == 5 && cs[0].Tok? then Negation(cs[0].t, cs[1])
    else if Operator(r) != 0 && Len(r) == 3 && cs[1].Tok? then Binary(cs[0], cs[1].t, cs[2])
    else if 23 <= r <= 25 && cs[0].Tok? then Element(cs[0].t)
    else if (r == 27 || r == 29) && cs[0].Tok? && cs[1].Tok? then Signed(cs[0].t, cs[1].t)
    else if 26 <= r <= 35 && r != 27 && r != 29 && cs[0].Tok? then Operand(cs[0].t)
    else if r == 36 && cs[0].Tok? && cs[2].Tok? then Parens(cs[0].t, cs[1], cs[2].t)
    else cs[0]
  }

  /** What a reduction hands over: the entry it makes on state p, for the same tokens. */
  ghost predicate Reduced<D>(neg: D -> D, p: int, r: int, c: Parse<D>, v: Expr<D>, text: seq<Token<D>>) {
    && EntryOk(neg, p, Goto(p, Lhs(r)), c, v) && Text(c) == text
    && (AtSum(Goto(p, Lhs(r))) ==> IsProduct(c) || r == 17 || r == 18)
    && Stos(Goto(p, Lhs(r))) == Lhs(r) > NTOKENS
  }

  /** An operand becomes a primary, a set or a regular expression. */
  lemma ReduceOperand<D>(neg: D -> D, p: int, q: int, c: Parse<D>, v: Expr<D>, yylval: Expr<D>)
    requires 0 <= p < NSTATES && EntryOk(neg, p, q, c, v) && (1 <= q <= 8 || q == 48 || q == 49 || q == 52)
    requires c.Tok? && yylval == c.t.leaf
    ensures var r := Defact(q);
      Len(r) == 1 && 23 <= r <= 35 && Reduced(neg, p, r, Build(r, [c]), Action(neg, r, [v], yylval), Text(c))
  {
    var r := Defact(q);
    GotoEdge(p, Lhs(r));
    hide Goto, Pact, CheckAt, TableAt;
  }

  /** A primary is a term, a term a subrule, a subrule a rule. */
  lemma ReduceUnit<D>(neg: D -> D, p: int, q: int, c: Parse<D>, v: Expr<D>, yylval: Expr<D>)
    requires 0 <= p < NSTATES && EntryOk(neg, p, q, c, v) && 14 <= q <= 16
    ensures var r := Defact(q);
      Len(r) == 1 && (r == 6 || r == 16 || r == 22)
        && Reduced(neg, p, r, Build(r, [c]), Action(neg, r, [v], yylval), Text(c))
  {
    Lift(c);
    var r := Defact(q);
    GotoEdge(p, Lhs(r));
    hide Goto, Pact, CheckAt, TableAt, IsPrimary, IsProduct, IsTerm, IsSubrule, IsUnary, IsRule;
  }

  /** Rules with two symbols. */
  lemma ReduceTwo<D>(neg: D -> D, p: int, q1: int, q2: int, c1: Parse<D>, c2: Parse<D>, v1: Expr<D>, v2: Expr<D>,
      yylval: Expr<D>)
    requires 0 <= p < NSTATES && EntryOk(neg, p, q1, c1, v1) && EntryOk(neg, q1, q2, c2, v2)
    requires q2 == 17 || q2 == 18 || q2 == 20 || q2 == 22
    requires q2 == 17 || q2 == 18 ==> c2.Tok? && yylval == c2.t.leaf
    ensures var r := Defact(q2);
      Len(r) == 2 && Reduced(neg, p, r, Build(r, [c1, c2]), Action(neg, r, [v1, v2], yylval), Text(c1) + Text(c2))
  {
    var r := Defact(q2);
    GotoEdge(p, Lhs(r));
    Lift(Build(r, [c1, c2]));
    hide Goto, Pact, CheckAt, TableAt;
  }

  /** Rules with three symbols: the state below the operator is the one the result goes to. */
  lemma ReduceParens<D>(neg: D -> D, p: int, q1: int, q2: int, q3: int, c1: Parse<D>, c2: Parse<D>, c3: Parse<D>,
      v1: Expr<D>, v2: Expr<D>, v3: Expr<D>, yylval: Expr<D>)
    requires 0 <= p < NSTATES && EntryOk(neg, p, q1, c1, v1) && EntryOk(neg, q1, q2, c2, v2)
      && EntryOk(neg, q2, q3, c3, v3) && q3 == 39
    ensures Reduced(neg, p, 36, Build(36, [c1, c2, c3]), Action(neg, 36, [v1, v2, v3], yylval),
      Text(c1) + Text(c2) + Text(c3))
  {
    GotoEdge(p, PRIMARY);
    hide Goto, Pact, CheckAt, TableAt;
  }

  /** States on top of the right operand of an operator. */
  predicate AtRight(q: int) {
    40 <= q <= 47 || q == 50 || q == 51 || 53 <= q <= 58
  }

  /** The tables at a binary rule: its operator is the one in the middle, its left side the symbol
      of the state below. */
  lemma BinaryTables(p: int, q1: int, q2: int, q3: int)
    requires 0 <= p < NSTATES && 0 < q1 < NSTATES && 0 < q2 < NSTATES && 0 < q3 < NSTATES
    requires Edge(p, q1) && Edge(q1, q2) && Edge(q2, q3) && AtRight(q3)
    ensures var r := Defact(q3);
      && Len(r) == 3 && 3 <= r <= 21 && Operator(r) == Stos(q2) && Lhs(r) == Stos(q1) > NTOKENS && q1 == Goto(p, Lhs(r))
    ensures if q3 == 40 || q3 == 41 then AtRule(q1) && 21 <= Stos(q2) <= 22
      else if q3 >= 54 then (AtSum(q1) && 32 <= Stos(q2) <= 33 && AtProduct(q3))
        || ((AtSum(q1) || AtProduct(q1)) && 34 <= Stos(q2) <= 36 && 36 <= q2 <= 38 && q3 >= 56)
      else AtSubrule(q1) && 23 <= Stos(q2) <= 31
  {
    EdgeDetermined(p, q1);
    hide Goto, Pact, CheckAt, TableAt;
  }

  lemma OperatorState(q2: int, q3: int)
    requires 0 < q2 < NSTATES && 0 < q3 < NSTATES && Edge(q2, q3) && AtRight(q3)
    ensures (Defact(q3) == 17 || Defact(q3) == 18) <==> 32 <= Stos(q2) <= 33
    ensures (q3 == 50 || q3 == 51 <==> Stos(q2) == BL || Stos(q2) == NBL) && (q3 == 53 <==> Stos(q2) == MATCH)
    ensures 23 <= q2 <= 38 && 0 < Stos(q2) < NTOKENS
  {}

  /** A binary rule keeps the level of the state its left side is on. */
  lemma BinaryLevel<D>(q1: int, q2: int, q3: int, c1: Parse<D>, t: Token<D>, c3: Parse<D>)
    requires Edge(q1, q2) && Edge(q2, q3) && AtRight(q3) && 0 < q1 < NSTATES && 0 < q2 < NSTATES && 0 < q3 < NSTATES
    requires t.kind == Stos(q2) && LevelOk(q1, c1) && LevelOk(q3, c3) && (36 <= q2 <= 38 ==> IsProduct(c1))
    requires if q3 == 40 || q3 == 41 then AtRule(q1) && 21 <= Stos(q2) <= 22
      else if q3 >= 54 then (AtSum(q1) && 32 <= Stos(q2) <= 33 && AtProduct(q3))
        || ((AtSum(q1) || AtProduct(q1)) && 34 <= Stos(q2) <= 36 && 36 <= q2 <= 38 && q3 >= 56)
      else AtSubrule(q1) && 23 <= Stos(q2) <= 31
    ensures LevelOk(q1, Binary(c1, t, c3))
    ensures AtSum(q1) ==> IsProduct(Binary(c1, t, c3)) || 32 <= t.kind <= 33
  {
    var c := Binary(c1, t, c3);
    OperatorState(q2, q3);
    JoinLevels(c1, t, c3);
    Lift(c);
    hide IsRule, IsUnary, IsSubrule, IsTerm, IsProduct, IsPrimary, IsSet, IsRegex, Stos, Edge;
  }

  /** The node of an operator, by the number of its token. */
  ghost predicate Labelled<D>(k: int, e: Expr<D>, left: Expr<D>, right: Expr<D>) {
    && e.children == [left, right]
    && (21 <= k <= 22 ==> e.kind == Rel && e.type_ == Bool)
    && (23 <= k <= 31 ==> e.kind == Logic && e.type_ == Bool)
    && (32 <= k <= 35 ==> e.kind == Arith && e.type_ == Double)
    && (k == 36 ==> e.kind == Arith && e.type_ == Int)
    && e.op == (match k
      case 21 => Or case 22 => And case 23 => Eq case 24 => Neq case 25 => Lt case 26 => Le case 27 => Gt
      case 28 => Ge case 29 => Bl case 30 => Nbl case 31 => Match case 32 => Plus case 33 => Sub case 34 => Mut
      case 35 => Div case 36 => Mod case _ => NoOp)
  }

  lemma ReduceBinary<D>(neg: D -> D, p: int, q1: int, q2: int, q3: int, c1: Parse<D>, c2: Parse<D>, c3: Parse<D>,
      v1: Expr<D>, v2: Expr<D>, v3: Expr<D>, yylval: Expr<D>)
    requires 0 <= p < NSTATES && EntryOk(neg, p, q1, c1, v1) && EntryOk(neg, q1, q2, c2, v2)
      && EntryOk(neg, q2, q3, c3, v3) && AtRight(q3)
    requires 36 <= q2 <= 38 ==> IsProduct(c1)
    ensures var r := Defact(q3);
      Len(r) == 3 && 2 <= r <= 36
        && Reduced(neg, p, r, Build(r, [c1, c2, c3]), Action(neg, r, [v1, v2, v3], yylval),
        Text(c1) + Text(c2) + Text(c3))
    ensures c2.Tok? && Labelled(c2.t.kind, Action(neg, Defact(q3), [v1, v2, v3], yylval), v1, v3)
  {
    hide Goto, Pact, CheckAt, TableAt, Defact, Lhs, Len, Stos, Edge, Operator, TypeOf, KindOf, OpOf, LevelOk, AtSum,
      AtRight, AtRule, AtSubrule, AtProduct, AtTerm, IsProduct;
    var r := Defact(q3);
    BinaryTables(p, q1, q2, q3);
    OperatorState(q2, q3);
    RightSymbol(q3);
    MiddleToken(q2, c2);
    BinaryLevel(q1, q2, q3, c1, c2.t, c3);
    hide EntryOk;
    BinaryValue(neg, r, c1, c2.t, c3, v1, v2, v3, yylval);
    EntryIs(neg, p, q1, Binary(c1, c2.t, c3), Action(neg, r, [v1, v2, v3], yylval));
    BinaryLabelled(neg, r, c2.t.kind, v1, v2, v3, yylval);
    hide Labelled;
  }

  lemma BinaryLabelled<D>(neg: D -> D, r: int, k: int, v1: Expr<D>, v2: Expr<D>, v3: Expr<D>, yylval: Expr<D>)
    requires 2 <= r <= 36 && Len(r) == 3 && Operator(r) == k != 0
    ensures Labelled(k, Action(neg, r, [v1, v2, v3], yylval), v1, v3)
  {}

  lemma EntryIs<D>(neg: D -> D, p: int, q: int, c: Parse<D>, v: Expr<D>)
    requires 0 < q < NSTATES && Edge(p, q) && LevelOk(q, c) && v == TreeOf(neg, c)
    ensures EntryOk(neg, p, q, c, v)
  {}

  lemma MiddleToken<D>(q: int, c: Parse<D>)
    requires 23 <= q <= 38 && LevelOk(q, c)
    ensures c.Tok? && c.t.kind == Stos(q)
  {}

  /** The action of a binary rule builds the tree of its parse. */
  lemma BinaryValue<D>(neg: D -> D, r: int, c1: Parse<D>, t: Token<D>, c3: Parse<D>, v1: Expr<D>, v2: Expr<D>,
      v3: Expr<D>, yylval: Expr<D>)
    requires 3 <= r <= 21 && Len(r) == 3 && Operator(r) == t.kind != 0 && v1 == TreeOf(neg, c1) && v3 == TreeOf(neg, c3)
    ensures Build(r, [c1, Tok(t), c3]) == Binary(c1, t, c3)
    ensures Action(neg, r, [v1, v2, v3], yylval) == TreeOf(neg, Binary(c1, t, c3))
    ensures Text(c1) + Text(Tok(t)) + Text(c3) == Text(Binary(c1, t, c3))
  {}

  lemma RightSymbol(q: int)
    requires AtRight(q)
    ensures Stos(q) > NTOKENS
  {}

  lemma JoinLevels<D>(left: Parse<D>, op: Token<D>, right: Parse<D>)
    ensures var c := Binary(left, op, right);
      && (21 <= op.kind <= 22 && IsRule(left) && IsSubrule(right) ==> IsRule(c))
      && (23 <= op.kind <= 31 && IsSubrule(left) && RightSide(op.kind, right) ==> IsSubrule(c))
      && (32 <= op.kind <= 33 && IsTerm(left) && IsProduct(right) ==> IsTerm(c))
      && (34 <= op.kind <= 36 && IsProduct(left) && IsPrimary(right) ==> IsProduct(c))
  {}

  // ----- the stacks ------------------------------------------------------------------------

  function Top(ss: seq<int>): int
    requires ss != []
  {
    ss[|ss| - 1]
  }

  /** The tokens of the k lowest entries, bottom first. */
  function FlatUpTo<D>(cs: seq<Parse<D>>, k: nat): seq<Token<D>>
    requires k <= |cs|
  {
    if k == 0 then [] else FlatUpTo(cs, k - 1) + Text(cs[k - 1])
  }

  /** The tokens on the stack. */
  function FlatText<D>(cs: seq<Parse<D>>): seq<Token<D>> {
    FlatUpTo(cs, |cs|)
  }

  lemma {:induction false} FlatPrefix<D>(cs: seq<Parse<D>>, ds: seq<Parse<D>>, k: nat)
    requires k <= |cs| && k <= |ds| && forall i :: 0 <= i < k ==> cs[i] == ds[i]
    ensures FlatUpTo(cs, k) == FlatUpTo(ds, k)
  {
    if k > 0 {
      FlatPrefix(cs, ds, k - 1);
    }
  }

  /** The state stack is a path of the automaton and says what the value stack holds. */
  ghost predicate StackOk<D>(neg: D -> D, ss: seq<int>, cs: seq<Parse<D>>, vs: seq<Expr<D>>) {
    && |ss| == |cs| + 1 == |vs| + 1 && ss[0] == 0
    && forall i {:trigger cs[i]} :: 0 <= i < |cs| ==> EntryOk(neg, ss[i], ss[i + 1], cs[i], vs[i])
  }

  /** Left operands of `*`, `/` and `%` are products. */
  ghost predicate Tight<D>(ss: seq<int>, cs: seq<Parse<D>>) {
    |ss| == |cs| + 1 && forall i {:trigger cs[i]} :: 0 <= i < |cs| - 1 && 36 <= ss[i + 2] <= 38 ==> IsProduct(cs[i])
  }

  lemma StatesInRange<D>(neg: D -> D, ss: seq<int>, cs: seq<Parse<D>>, vs: seq<Expr<D>>)
    requires StackOk(neg, ss, cs, vs)
    ensures forall i {:trigger ss[i]} :: 0 <= i < |ss| ==> 0 <= ss[i] < NSTATES && (ss[i] == 0 ==> i == 0)
  {
    forall i | 0 < i < |ss| ensures 0 < ss[i] < NSTATES {
      assert EntryOk(neg, ss[i - 1], ss[i], cs[i - 1], vs[i - 1]);
    }
  }

  /** The stacks after popping n entries and pushing one. */
  lemma PopPush<D>(neg: D -> D, ss: seq<int>, cs: seq<Parse<D>>, vs: seq<Expr<D>>, n: nat, q: int, c: Parse<D>,
      v: Expr<D>)
    requires StackOk(neg, ss, cs, vs) && Tight(ss, cs) && n <= |cs|
    requires EntryOk(neg, ss[|cs| - n], q, c, v) && (36 <= q <= 38 && n < |cs| ==> IsProduct(cs[|cs| - n - 1]))
    ensures StackOk(neg, ss[..|ss| - n] + [q], cs[..|cs| - n] + [c], vs[..|vs| - n] + [v])
    ensures Tight(ss[..|ss| - n] + [q], cs[..|cs| - n] + [c])
    ensures FlatText(cs[..|cs| - n] + [c]) == FlatUpTo(cs, |cs| - n) + Text(c)
  {
    hide EntryOk, IsProduct, Text;
    var cs' := cs[..|cs| - n] + [c];
    FlatPrefix(cs, cs', |cs| - n);
  }

  /** The tokens of the n last entries. */
  function TailText<D>(cs: seq<Parse<D>>, n: int): seq<Token<D>>
    requires 1 <= n <= 3 && n <= |cs|
  {
    var m := |cs|;
    if n == 1 then Text(cs[m - 1])
    else if n == 2 then Text(cs[m - 2]) + Text(cs[m - 1])
    else Text(cs[m - 3]) + Text(cs[m - 2]) + Text(cs[m - 1])
  }

  lemma FlatTail<D>(cs: seq<Parse<D>>, n: int)
    requires 1 <= n <= 3 && n <= |cs|
    ensures FlatText(cs) == FlatUpTo(cs, |cs| - n) + TailText(cs, n)
  {
    var m := |cs|;
    FlatOne(cs, m);
    if n == 2 {
      FlatOne(cs, m - 1);
      hide FlatUpTo, Text;
      Associative(FlatUpTo(cs, m - 2), Text(cs[m - 2]), Text(cs[m - 1]));
    } else if n == 3 {
      FlatOne(cs, m - 1);
      FlatOne(cs, m - 2);
      hide FlatUpTo, Text;
      AssociativeThree(FlatUpTo(cs, m - 3), Text(cs[m - 3]), Text(cs[m - 2]), Text(cs[m - 1]));
    }
  }

  lemma FlatOne<D>(cs: seq<Parse<D>>, k: nat)
    requires 0 < k <= |cs|
    ensures FlatUpTo(cs, k) == FlatUpTo(cs, k - 1) + Text(cs[k - 1])
  {}

  lemma AssociativeThree<T>(a: seq<T>, b: seq<T>, c: seq<T>, d: seq<T>)
    ensures ((a + b) + c) + d == a + ((b + c) + d)
  {}

  predicate TopOperand(q: int) {
    1 <= q <= 8 || q == 17 || q == 18 || q == 48 || q == 49 || q == 52
  }

  /** States with a reduction, by the length of its rule. */
  lemma Reducing(q: int)
    requires 0 <= q < NSTATES && q != FINAL && Defact(q) != 0
    ensures 2 <= Defact(q) <= 36 && 1 <= Len(Defact(q)) <= 3 && q != 0
    ensures Len(Defact(q)) == 1 <==> 1 <= q <= 8 || q == 48 || q == 49 || q == 52 || 14 <= q <= 16
    ensures Len(Defact(q)) == 2 <==> q == 17 || q == 18 || q == 20 || q == 22
    ensures Len(Defact(q)) == 3 <==> q == 39 || AtRight(q)
    ensures Defact(q) == 36 <==> q == 39
    ensures Defact(q) == 2 <==> q == 22
  {}

  /** The top of the stack is the right-hand side of the rule its state reduces. */
  ghost predicate Ripe<D>(neg: D -> D, ss: seq<int>, cs: seq<Parse<D>>, vs: seq<Expr<D>>, yylval: Expr<D>)
    requires ss != []
  {
    var r := Defact(Top(ss));
    var n := Len(r);
    && 2 <= r <= 36 && 1 <= n <= 3 && n <= |cs| && |ss| == |cs| + 1 == |vs| + 1
    && Reduced(neg, ss[|cs| - n], r, Build(r, cs[|cs| - n..]), Action(neg, r, vs[|cs| - n..], yylval), TailText(cs, n))
    && (r == 2 ==> |cs| == 2)
  }

  lemma RipeOne<D>(neg: D -> D, ss: seq<int>, cs: seq<Parse<D>>, vs: seq<Expr<D>>, yylval: Expr<D>)
    requires StackOk(neg, ss, cs, vs) && cs != []
      && (TopOperand(Top(ss)) ==> cs[|cs| - 1].Tok? && yylval == cs[|cs| - 1].t.leaf)
    requires var q := Top(ss); 1 <= q <= 8 || q == 48 || q == 49 || q == 52 || 14 <= q <= 16
    requires 0 <= ss[|cs| - 1] < NSTATES
    ensures Ripe(neg, ss, cs, vs, yylval)
  {
    hide Reduced, EntryOk, StackOk, Action, Build, Text, Pact, CheckAt, TableAt, Lhs, Defact, Len, Edge, LevelOk, Stos;
    var m := |cs|;
    EntryAt(neg, ss, cs, vs, m - 1);
    var q := Top(ss);
    assert cs[m - 1..] == [cs[m - 1]] && vs[m - 1..] == [vs[m - 1]];
    if 14 <= q <= 16 {
      ReduceUnit(neg, ss[m - 1], q, cs[m - 1], vs[m - 1], yylval);
    } else {
      ReduceOperand(neg, ss[m - 1], q, cs[m - 1], vs[m - 1], yylval);
    }
  }

  lemma RipeTwo<D>(neg: D -> D, ss: seq<int>, cs: seq<Parse<D>>, vs: seq<Expr<D>>, yylval: Expr<D>)
    requires StackOk(neg, ss, cs, vs) && |cs| >= 2
      && (TopOperand(Top(ss)) ==> cs[|cs| - 1].Tok? && yylval == cs[|cs| - 1].t.leaf)
    requires var q := Top(ss); q == 17 || q == 18 || q == 20 || q == 22
    requires 0 <= ss[|cs| - 2] < NSTATES && (Top(ss) == 22 ==> |cs| == 2)
    ensures Ripe(neg, ss, cs, vs, yylval)
  {
    hide Reduced, EntryOk, StackOk, Action, Build, Text, Pact, CheckAt, TableAt, Lhs, Defact, Len, Edge, LevelOk, Stos;
    var m := |cs|;
    EntryAt(neg, ss, cs, vs, m - 1);
    EntryAt(neg, ss, cs, vs, m - 2);
    var q := Top(ss);
    assert cs[m - 2..] == [cs[m - 2], cs[m - 1]] && vs[m - 2..] == [vs[m - 2], vs[m - 1]];
    Reducing1(q);
    ReduceTwo(neg, ss[m - 2], ss[m - 1], q, cs[m - 2], cs[m - 1], vs[m - 2], vs[m - 1], yylval);
  }

  lemma Reducing1(q: int)
    requires q == 17 || q == 18 || q == 20 || q == 22
    ensures 2 <= Defact(q) <= 36 && Len(Defact(q)) == 2 && (Defact(q) == 2 ==> q == 22)
  {}

  lemma RipeThree<D>(neg: D -> D, ss: seq<int>, cs: seq<Parse<D>>, vs: seq<Expr<D>>, yylval: Expr<D>)
    requires StackOk(neg, ss, cs, vs) && Tight(ss, cs) && |cs| >= 3
    requires var q := Top(ss); q == 39 || AtRight(q)
    requires 0 <= ss[|cs| - 3] < NSTATES
    ensures Ripe(neg, ss, cs, vs, yylval)
  {
    hide Reduced, EntryOk, StackOk, Tight, Action, Build, Text, Pact, CheckAt, TableAt, Lhs, Edge, LevelOk, Defact,
      Len, Stos, IsProduct;
    var m := |cs|;
    EntryAt(neg, ss, cs, vs, m - 1);
    EntryAt(neg, ss, cs, vs, m - 2);
    EntryAt(neg, ss, cs, vs, m - 3);
    var q := Top(ss);
    TightAt(ss, cs, m - 3);
    assert cs[m - 3..] == [cs[m - 3], cs[m - 2], cs[m - 1]] && vs[m - 3..] == [vs[m - 3], vs[m - 2], vs[m - 1]];
    Reducing2(q);
    if q == 39 {
      ReduceParens(neg, ss[m - 3], ss[m - 2], ss[m - 1], q, cs[m - 3], cs[m - 2], cs[m - 1], vs[m - 3], vs[m - 2],
        vs[m - 1], yylval);
    } else {
      ReduceBinary(neg, ss[m - 3], ss[m - 2], ss[m - 1], q, cs[m - 3], cs[m - 2], cs[m - 1], vs[m - 3], vs[m - 2],
        vs[m - 1], yylval);
    }
  }

  lemma EntryAt<D>(neg: D -> D, ss: seq<int>, cs: seq<Parse<D>>, vs: seq<Expr<D>>, i: nat)
    requires StackOk(neg, ss, cs, vs) && i < |cs|
    ensures |ss| == |cs| + 1 == |vs| + 1 && EntryOk(neg, ss[i], ss[i + 1], cs[i], vs[i])
  {}

  lemma TightAt<D>(ss: seq<int>, cs: seq<Parse<D>>, i: nat)
    requires Tight(ss, cs) && i + 1 < |cs|
    ensures 36 <= ss[i + 2] <= 38 ==> IsProduct(cs[i])
  {
    assert cs[i] == cs[i];
  }

  lemma Reducing2(q: int)
    requires q == 39 || AtRight(q)
    ensures 2 <= Defact(q) <= 36 && Len(Defact(q)) == 3 && Defact(q) != 2 && (q == 39 ==> Defact(q) == 36)
  {}

  /** Whenever the driver reduces, the symbols it pops are the rule's right-hand side. */
  lemma ReduceMatches<D>(neg: D -> D, ss: seq<int>, cs: seq<Parse<D>>, vs: seq<Expr<D>>, yylval: Expr<D>)
    requires StackOk(neg, ss, cs, vs) && Tight(ss, cs) && Top(ss) != FINAL && Defact(Top(ss)) != 0
    requires TopOperand(Top(ss)) ==> cs != [] && cs[|cs| - 1].Tok? && yylval == cs[|cs| - 1].t.leaf
    ensures Ripe(neg, ss, cs, vs, yylval)
  {
    StatesInRange(neg, ss, cs, vs);
    var m := |cs|;
    var q := Top(ss);
    Reducing(q);
    assert EntryOk(neg, ss[m - 1], q, cs[m - 1], vs[m - 1]);
    EdgeTwo(ss[m - 1], q);
    if m >= 2 {
      assert EntryOk(neg, ss[m - 2], ss[m - 1], cs[m - 2], vs[m - 2]);
      EdgeTwo(ss[m - 2], ss[m - 1]);
    }
    hide Ripe, StackOk, EntryOk, Defact, Len, Edge, Tight;
    if 1 <= q <= 8 || q == 48 || q == 49 || q == 52 || 14 <= q <= 16 {
      RipeOne(neg, ss, cs, vs, yylval);
    } else if q == 17 || q == 18 || q == 20 || q == 22 {
      RipeTwo(neg, ss, cs, vs, yylval);
    } else {
      RipeThree(neg, ss, cs, vs, yylval);
    }
  }

  lemma EdgeTwo(p: int, q: int)
    requires Edge(p, q)
    ensures q == 17 || q == 18 || q == 20 || q == 22 ==> p != 0
    ensures q == 22 ==> p == 13
    ensures q == 13 ==> p == 0
    ensures q == 39 || AtRight(q) ==> p != 0
    ensures q == 39 ==> p == 19
    ensures q == 19 ==> p != 0
    ensures AtRight(q) ==> 23 <= p <= 38
    ensures 23 <= q <= 38 ==> p != 0
  {}
}
