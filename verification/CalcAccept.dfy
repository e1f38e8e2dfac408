/** The automaton of the rule parser, with the parses its stack stands for, and that it reads every
    sentence of the language in the one way the sentence can be read. */
module CalcAccept {
  import opened Options
  import opened CalcSpec
  import opened CalcTables
  import opened CalcGrammar
  import opened CalcStack

  /** The states and what they stand for; at the bottom is the initial state. */
  datatype Stack<D> = Start | Push(below: Stack<D>, state: int, parse: Parse<D>)

  /** The stack, and how many tokens have been shifted. */
  datatype Config<D> = Config(stack: Stack<D>, pos: nat)

  function StateOf<D>(s: Stack<D>): int {
    if s.Start? then 0 else s.state
  }

  datatype Popped<D> = Popped(below: Stack<D>, parses: seq<Parse<D>>)

  /** The stack without its n last entries, and what these stood for. */
  function Pop<D>(s: Stack<D>, n: nat): (r: Option<Popped<D>>)
    ensures r.Some? ==> |r.value.parses| == n
  {
    if n == 0 then Some(Popped(s, []))
    else if s.Start? then None
    else match Pop(s.below, n - 1)
      case None => None
      case Some(p) => Some(Popped(p.below, p.parses + [s.parse]))
  }

  /** Reduce by the rule of the state on top. */
  function ReduceBy<D>(c: Config<D>, r: int): Option<Config<D>> {
    if r < 2 || r > 36 || Len(r) < 0 then None
    else match Pop(c.stack, Len(r))
      case None => None
      case Some(p) => Some(Config(Push(p.below, Goto(StateOf(p.below), Lhs(r)), Build(r, p.parses)), c.pos))
  }

  /** One step of the automaton; nothing follows the final state, or an error. */
  function Next<D>(k: seq<Token<D>>, c: Config<D>): Option<Config<D>> {
    var p := StateOf(c.stack);
    if p == FINAL then None
    else if Pact(p) != PACT_NINF && c.pos < |k| && Shift(p, k[c.pos].kind) != 0
    then Some(Config(Push(c.stack, Shift(p, k[c.pos].kind), Tok(k[c.pos])), c.pos + 1))
    else ReduceBy(c, Defact(p))
  }

  function Steps<D>(k: seq<Token<D>>, c: Config<D>, n: nat): Option<Config<D>>
    decreases n
  {
    if n == 0 then Some(c) else match Next(k, c) case None => None case Some(d) => Steps(k, d, n - 1)
  }

  ghost predicate Leads<D(!new)>(k: seq<Token<D>>, c: Config<D>, d: Config<D>) {
    exists n: nat :: Steps(k, c, n) == Some(d)
  }

  lemma {:induction false} StepsAdd<D>(k: seq<Token<D>>, c: Config<D>, d: Config<D>, n: nat, m: nat)
    requires Steps(k, c, n) == Some(d)
    ensures Steps(k, c, n + m) == Steps(k, d, m)
    decreases n
  {
    hide Next;
    if n > 0 {
      StepsAdd(k, Next(k, c).value, d, n - 1, m);
    }
  }

  lemma Then<D(!new)>(k: seq<Token<D>>, c: Config<D>, d: Config<D>, e: Config<D>)
    requires Leads(k, c, d) && Leads(k, d, e)
    ensures Leads(k, c, e)
  {
    var n: nat :| Steps(k, c, n) == Some(d);
    var m: nat :| Steps(k, d, m) == Some(e);
    StepsAdd(k, c, d, n, m);
  }

  lemma Here<D(!new)>(k: seq<Token<D>>, c: Config<D>)
    ensures Leads(k, c, c)
  {
    assert Steps(k, c, 0) == Some(c);
  }

  lemma ThenStep<D(!new)>(k: seq<Token<D>>, c: Config<D>, d: Config<D>)
    requires Leads(k, c, d) && Next(k, d).Some?
    ensures Leads(k, c, Next(k, d).value)
  {
    assert Steps(k, d, 1) == Some(Next(k, d).value) by {
      assert Steps(k, Next(k, d).value, 0) == Some(Next(k, d).value);
    }
    Then(k, c, d, Next(k, d).value);
  }

  /** The tokens of the parse are the input from pos on. */
  ghost predicate At<D>(k: seq<Token<D>>, pos: nat, c: Parse<D>) {
    pos + |Text(c)| <= |k| && forall i :: 0 <= i < |Text(c)| ==> k[pos + i] == Text(c)[i]
  }

  /** The kind of the next token, or the end. */
  function Peek<D>(k: seq<Token<D>>, pos: nat): int {
    if pos < |k| then k[pos].kind else END
  }

  // ----- single steps ----------------------------------------------------------------------

  lemma ByShift<D(!new)>(k: seq<Token<D>>, c: Config<D>, s: Stack<D>, pos: nat, q: int)
    requires StateOf(s) != FINAL && Pact(StateOf(s)) != PACT_NINF && pos < |k|
    requires Leads(k, c, Config(s, pos)) && Shift(StateOf(s), k[pos].kind) == q != 0
    ensures Leads(k, c, Config(Push(s, q, Tok(k[pos])), pos + 1))
  {
    ThenStep(k, c, Config(s, pos));
  }

  /** The state reduces by default: no lookahead is asked for, or the next token is not for it. */
  predicate Resolves<D>(k: seq<Token<D>>, q: int, pos: nat) {
    q != FINAL && 2 <= Defact(q) <= 36 && (Pact(q) == PACT_NINF || pos >= |k| || Shift(q, k[pos].kind) == 0)
  }

  lemma ByReduce<D(!new)>(k: seq<Token<D>>, c: Config<D>, s: Stack<D>, pos: nat, b: Stack<D>, xs: seq<Parse<D>>)
    requires Resolves(k, StateOf(s), pos) && Leads(k, c, Config(s, pos)) && |xs| == Len(Defact(StateOf(s)))
    requires Pop(s, |xs|) == Some(Popped(b, xs))
    ensures var r := Defact(StateOf(s));
      Leads(k, c, Config(Push(b, Goto(StateOf(b), Lhs(r)), Build(r, xs)), pos))
  {
    ThenStep(k, c, Config(s, pos));
  }

  lemma PopOne<D>(s: Stack<D>, q: int, x: Parse<D>)
    ensures Pop(Push(s, q, x), 1) == Some(Popped(s, [x]))
  {
    assert Pop(s, 0) == Some(Popped(s, [])) && [] + [x] == [x];
  }

  lemma PopTwo<D>(s: Stack<D>, q1: int, x1: Parse<D>, q2: int, x2: Parse<D>)
    ensures Pop(Push(Push(s, q1, x1), q2, x2), 2) == Some(Popped(s, [x1, x2]))
  {
    PopOne(s, q1, x1);
    assert [x1] + [x2] == [x1, x2];
  }

  lemma PopThree<D>(s: Stack<D>, q1: int, x1: Parse<D>, q2: int, x2: Parse<D>, q3: int, x3: Parse<D>)
    ensures Pop(Push(Push(Push(s, q1, x1), q2, x2), q3, x3), 3) == Some(Popped(s, [x1, x2, x3]))
  {
    PopTwo(s, q1, x1, q2, x2);
    assert [x1, x2] + [x3] == [x1, x2, x3];
  }

  // ----- sentences -------------------------------------------------------------------------

  lemma OpeningShifts(p: int, t: int)
    requires Opening(p)
    ensures Pact(p) != PACT_NINF && p != FINAL
    ensures (7 <= t <= 9 ==> Shift(p, t) == t - 6) && (11 <= t <= 15 ==> Shift(p, t) == t - 7)
    ensures (t == SUB ==> Shift(p, t) == 9) && (t == LP ==> Shift(p, t) == 10)
    ensures t == NOT && (p == 0 || p == 10 || p == 11) ==> Shift(p, t) == 11
  {
    if 0 <= t < NTOKENS { ShiftExpect(p, t); }
    hide CheckAt, TableAt, Shift;
  }

  /** From a state that expects it, a primary is read whatever follows. */
  lemma {:induction false} PrimaryRuns<D(!new)>(k: seq<Token<D>>, s: Stack<D>, pos: nat, c: Parse<D>)
    requires Opening(StateOf(s)) && IsPrimary(c) && At(k, pos, c)
    ensures Leads(k, Config(s, pos), Config(Push(s, 16, c), pos + |Text(c)|))
    decreases c, 0
  {
    hide Leads, Goto, Shift, Pact, IsRule, Opening;
    match c {
      case Operand(t) =>
        assert Text(c)[0] == t && k[pos + 0] == t;
        OperandRuns(k, s, pos, t);
      case Signed(minus, t) =>
        assert Text(c)[0] == minus && Text(c)[1] == t && k[pos + 0] == minus && k[pos + 1] == t;
        SignedRuns(k, s, pos, minus, t);
      case Parens(open, inner, close) =>
        ParensText(k, pos, c);
        hide Text, At;
        Here(k, Config(s, pos));
        OpeningShifts(StateOf(s), LP);
        ByShift(k, Config(s, pos), s, pos, 10);
        RuleRuns(k, Push(s, 10, Tok(open)), pos + 1, inner);
        ParensRuns(k, s, pos, c, pos + 1 + |Text(inner)|);
    }
  }

  lemma OperandRuns<D(!new)>(k: seq<Token<D>>, s: Stack<D>, pos: nat, t: Token<D>)
    requires Opening(StateOf(s)) && pos < |k| && k[pos] == t && (7 <= t.kind <= 9 || 11 <= t.kind <= 15)
    ensures Leads(k, Config(s, pos), Config(Push(s, 16, Operand(t)), pos + 1))
  {
    Here(k, Config(s, pos));
    var q := if t.kind <= 9 then t.kind - 6 else t.kind - 7;
    OpeningShifts(StateOf(s), t.kind);
    ByShift(k, Config(s, pos), s, pos, q);
    PopOne(s, q, Tok(t));
    GotoEdge(StateOf(s), PRIMARY);
    OperandRule(q);
    hide Goto, Pgoto, Defgoto, CheckAt, TableAt, Leads, Defact, Len, Lhs;
    ByReduce(k, Config(s, pos), Push(s, q, Tok(t)), pos + 1, s, [Tok(t)]);
  }

  lemma OperandRule(q: int)
    requires 1 <= q <= 8
    ensures var r := Defact(q);
      26 <= r <= 35 && r != 27 && r != 29 && Len(r) == 1 && Lhs(r) == PRIMARY && Operator(r) == 0
    ensures q != FINAL && Pact(q) == PACT_NINF
  {}

  lemma SignedRuns<D(!new)>(k: seq<Token<D>>, s: Stack<D>, pos: nat, minus: Token<D>, t: Token<D>)
    requires Opening(StateOf(s)) && pos + 1 < |k| && k[pos] == minus && k[pos + 1] == t
    requires minus.kind == SUB && (t.kind == NUM || t.kind == FNUM)
    ensures Leads(k, Config(s, pos), Config(Push(s, 16, Signed(minus, t)), pos + 2))
  {
    Here(k, Config(s, pos));
    OpeningShifts(StateOf(s), SUB);
    ByShift(k, Config(s, pos), s, pos, 9);
    var q := if t.kind == NUM then 17 else 18;
    ShiftExpect(9, t.kind);
    ByShift(k, Config(s, pos), Push(s, 9, Tok(minus)), pos + 1, q);
    PopTwo(s, 9, Tok(minus), q, Tok(t));
    GotoEdge(StateOf(s), PRIMARY);
    hide Goto, Pgoto, Defgoto, CheckAt, TableAt, Leads;
    ByReduce(k, Config(s, pos), Push(Push(s, 9, Tok(minus)), q, Tok(t)), pos + 2, s, [Tok(minus), Tok(t)]);
  }

  lemma ParensText<D>(k: seq<Token<D>>, pos: nat, c: Parse<D>)
    requires c.Parens? && At(k, pos, c) && IsPrimary(c)
    ensures var n := |Text(c.inner)|;
      && |Text(c)| == n + 2 && pos + n + 2 <= |k| && k[pos] == c.open && c.open.kind == LP
      && At(k, pos + 1, c.inner) && k[pos + 1 + n] == c.close && c.close.kind == RP && IsRule(c.inner)
  {
    var n := |Text(c.inner)|;
    assert k[pos + 0] == Text(c)[0] && k[pos + (n + 1)] == Text(c)[n + 1];
    forall i | 0 <= i < n ensures k[pos + 1 + i] == Text(c.inner)[i] {
      assert k[pos + (1 + i)] == Text(c)[1 + i];
    }
  }

  lemma ParensRuns<D(!new)>(k: seq<Token<D>>, s: Stack<D>, pos: nat, c: Parse<D>, end: nat)
    requires Opening(StateOf(s)) && end < |k| && c.Parens? && k[end] == c.close && c.close.kind == RP
    requires Leads(k, Config(s, pos), Config(Push(s, 10, Tok(c.open)), pos + 1))
    requires Leads(k, Config(Push(s, 10, Tok(c.open)), pos + 1),
      Config(Push(Push(s, 10, Tok(c.open)), Goto(10, RULE), c.inner), end))
    ensures Leads(k, Config(s, pos), Config(Push(s, 16, c), end + 1))
  {
    var a := Push(s, 10, Tok(c.open));
    var b := Push(a, 19, c.inner);
    SubruleGoto(10);
    ParensRule(c);
    GotoEdge(StateOf(s), PRIMARY);
    hide Goto, Pgoto, Defgoto, CheckAt, TableAt, Leads, Shift, Pact, Defact, Build, Lhs, Len, Operator;
    Then(k, Config(s, pos), Config(a, pos + 1), Config(b, end));
    ByShift(k, Config(s, pos), b, end, 39);
    PopThree(s, 10, Tok(c.open), 19, c.inner, 39, Tok(c.close));
    ResolvesAlways(k, 39, end + 1);
    ByReduce(k, Config(s, pos), Push(b, 39, Tok(c.close)), end + 1, s, [Tok(c.open), c.inner, Tok(c.close)]);
  }

  lemma ParensRule<D>(c: Parse<D>)
    requires c.Parens?
    ensures Shift(19, RP) == 39 && Pact(19) != PACT_NINF && Pact(39) == PACT_NINF
    ensures Defact(39) == 36 && Len(36) == 3 && Lhs(36) == PRIMARY
    ensures Build(36, [Tok(c.open), c.inner, Tok(c.close)]) == c
  {
    ShiftExpect(19, RP);
  }

  /** A rule with one symbol. */
  lemma UnitRuns<D(!new)>(k: seq<Token<D>>, c: Config<D>, s: Stack<D>, q: int, x: Parse<D>, end: nat)
    requires Leads(k, c, Config(Push(s, q, x), end)) && Resolves(k, q, end) && UnitRule(Defact(q))
    ensures Leads(k, c, Config(Push(s, Goto(StateOf(s), Lhs(Defact(q))), x), end))
  {
    PopOne(s, q, x);
    UnitBuild(Defact(q), x);
    hide Goto, Leads, Defact, Lhs, Len, Resolves;
    ByReduce(k, c, Push(s, q, x), end, s, [x]);
  }

  predicate UnitRule(r: int) {
    r == 6 || r == 16 || r == 22
  }

  lemma UnitBuild<D>(r: int, x: Parse<D>)
    requires UnitRule(r)
    ensures 2 <= r <= 36 && Len(r) == 1 && Build(r, [x]) == x
  {}

  /** A rule with an operator between two operands. */
  lemma BinaryRuns<D(!new)>(k: seq<Token<D>>, s: Stack<D>, pos: nat, q1: int, x1: Parse<D>, mid: nat, q2: int,
      q3: int, x3: Parse<D>, end: nat)
    requires Leads(k, Config(s, pos), Config(Push(s, q1, x1), mid))
    requires mid < |k| && q1 != FINAL && Pact(q1) != PACT_NINF && Shift(q1, k[mid].kind) == q2 != 0
    requires var a := Push(Push(s, q1, x1), q2, Tok(k[mid]));
      Leads(k, Config(a, mid + 1), Config(Push(a, q3, x3), end))
    requires Resolves(k, q3, end) && Len(Defact(q3)) == 3 && Operator(Defact(q3)) != 0
    ensures Leads(k, Config(s, pos), Config(Push(s, Goto(StateOf(s), Lhs(Defact(q3))), Binary(x1, k[mid], x3)), end))
  {
    var a := Push(Push(s, q1, x1), q2, Tok(k[mid]));
    ByShift(k, Config(s, pos), Push(s, q1, x1), mid, q2);
    Then(k, Config(s, pos), Config(a, mid + 1), Config(Push(a, q3, x3), end));
    PopThree(s, q1, x1, q2, Tok(k[mid]), q3, x3);
    BinaryBuild(Defact(q3), x1, k[mid], x3);
    hide Goto, Leads, Defact, Lhs, Len, Resolves, Operator;
    ByReduce(k, Config(s, pos), Push(a, q3, x3), end, s, [x1, Tok(k[mid]), x3]);
  }

  lemma BinaryBuild<D>(r: int, x1: Parse<D>, t: Token<D>, x3: Parse<D>)
    requires Operator(r) != 0 && Len(r) == 3
    ensures 2 <= r <= 36 && Build(r, [x1, Tok(t), x3]) == Binary(x1, t, x3)
  {}

  lemma BinaryText<D>(k: seq<Token<D>>, pos: nat, c: Parse<D>)
    requires c.Binary? && At(k, pos, c)
    ensures var n := |Text(c.left)|;
      && |Text(c)| == n + 1 + |Text(c.right)| && At(k, pos, c.left)
      && pos + n < |k| && k[pos + n] == c.op && At(k, pos + n + 1, c.right)
  {
    var n := |Text(c.left)|;
    assert k[pos + n] == Text(c)[n];
    forall i | 0 <= i < n ensures k[pos + i] == Text(c.left)[i] {
      assert k[pos + i] == Text(c)[i];
    }
    forall i | 0 <= i < |Text(c.right)| ensures k[pos + n + 1 + i] == Text(c.right)[i] {
      assert k[pos + (n + 1 + i)] == Text(c)[n + 1 + i];
    }
  }

  // The actions of the states after an operand, by the next token.

  lemma TermActions(q: int, t: int)
    requires AtSum(q) || AtProduct(q)
    ensures q != FINAL && Pact(q) != PACT_NINF && 2 <= Defact(q) <= 36
    ensures 34 <= t <= 36 ==> Shift(q, t) == t + 2
    ensures 32 <= t <= 33 && AtSum(q) ==> Shift(q, t) == t + 2
    ensures 0 <= t < NTOKENS && !(32 <= t <= 36) ==> Shift(q, t) == 0
    ensures 32 <= t <= 33 && AtProduct(q) ==> Shift(q, t) == 0
  {
    if 0 <= t < NTOKENS { ShiftExpect(q, t); }
    hide CheckAt, TableAt, Shift;
  }

  lemma SubruleActions(q: int, t: int)
    requires AtSubrule(q)
    ensures q != FINAL && Pact(q) != PACT_NINF && 2 <= Defact(q) <= 36
    ensures 23 <= t <= 31 ==> Shift(q, t) == t + 2
    ensures 0 <= t < NTOKENS && !(23 <= t <= 31) ==> Shift(q, t) == 0
  {
    if 0 <= t < NTOKENS { ShiftExpect(q, t); }
    hide CheckAt, TableAt, Shift;
  }

  /** The states of operands and operators reduce by rules of their symbol. */
  lemma RuleShapes(q: int)
    ensures 56 <= q <= 58 || AtProduct(q) ==> BinaryRule(Defact(q), TERM)
    ensures 42 <= q <= 47 || q == 50 || q == 51 || q == 53 ==> BinaryRule(Defact(q), SUBRULE)
    ensures q == 40 || q == 41 ==> BinaryRule(Defact(q), RULE)
    ensures q == 14 ==> UnitRule(Defact(q)) && Lhs(Defact(q)) == RULE
    ensures q == 15 ==> UnitRule(Defact(q)) && Lhs(Defact(q)) == SUBRULE
    ensures q == 16 ==> UnitRule(Defact(q)) && Lhs(Defact(q)) == TERM
    ensures 56 <= q <= 58 || q == 16 || q == 20 || q == 22 || 48 <= q <= 53 ==>
      Pact(q) == PACT_NINF && q != FINAL && 2 <= Defact(q) <= 36
  {}

  predicate BinaryRule(r: int, symbol: int) {
    Len(r) == 3 && Operator(r) != 0 && Lhs(r) == symbol
  }

  /** A primary as a term. */
  lemma PrimaryTermRuns<D(!new)>(k: seq<Token<D>>, s: Stack<D>, pos: nat, c: Parse<D>)
    requires Opening(StateOf(s)) && IsPrimary(c) && At(k, pos, c)
    ensures Leads(k, Config(s, pos), Config(Push(s, Goto(StateOf(s), TERM), c), pos + |Text(c)|))
    decreases c, 1
  {
    PrimaryRuns(k, s, pos, c);
    RuleShapes(16);
    hide Leads, Goto, Defact, Lhs, Len, At;
    UnitRuns(k, Config(s, pos), s, 16, c, pos + |Text(c)|);
  }

  lemma TermGoto(p: int)
    requires Opening(p)
    ensures 36 <= p <= 38 ==> Goto(p, TERM) == p + 20
    ensures p == 34 || p == 35 ==> Goto(p, TERM) == p + 20
    ensures 25 <= p <= 30 ==> Goto(p, TERM) == p + 17
    ensures p == 0 || p == 10 || p == 11 || p == 23 || p == 24 ==> Goto(p, TERM) == 15
  {}

  lemma {:induction false} ProductRuns<D(!new)>(k: seq<Token<D>>, s: Stack<D>, pos: nat, c: Parse<D>)
    requires Opening(StateOf(s)) && !(36 <= StateOf(s) <= 38) && IsProduct(c) && At(k, pos, c)
    ensures Leads(k, Config(s, pos), Config(Push(s, Goto(StateOf(s), TERM), c), pos + |Text(c)|))
    decreases c, 2
  {
    hide Leads, Goto, Defact, Lhs, Len, At, Shift, Pact, Text, Resolves, Operator;
    if IsPrimary(c) {
      PrimaryTermRuns(k, s, pos, c);
    } else {
      BinaryText(k, pos, c);
      var mid := pos + |Text(c.left)|;
      var t := c.op.kind;
      TermGoto(StateOf(s));
      var q1 := Goto(StateOf(s), TERM);
      ProductRuns(k, s, pos, c.left);
      TermActions(q1, t);
      TermGoto(t + 2);
      PrimaryTermRuns(k, Push(Push(s, q1, c.left), t + 2, Tok(c.op)), mid + 1, c.right);
      RuleShapes(t + 22);
      ResolvesAlways(k, t + 22, pos + |Text(c)|);
      BinaryRuns(k, s, pos, q1, c.left, mid, t + 2, t + 22, c.right, pos + |Text(c)|);
    }
  }

  lemma ResolvesAlways<D>(k: seq<Token<D>>, q: int, pos: nat)
    requires Pact(q) == PACT_NINF && q != FINAL && 2 <= Defact(q) <= 36
    ensures Resolves(k, q, pos)
  {}

  lemma ResolvesAt<D>(k: seq<Token<D>>, q: int, pos: nat)
    requires q != FINAL && 2 <= Defact(q) <= 36 && (pos < |k| ==> Shift(q, k[pos].kind) == 0)
    ensures Resolves(k, q, pos)
  {}

  lemma {:induction false} TermRuns<D(!new)>(k: seq<Token<D>>, s: Stack<D>, pos: nat, c: Parse<D>)
    requires Opening(StateOf(s)) && StateOf(s) < 34 && IsTerm(c) && At(k, pos, c)
    requires var t := Peek(k, pos + |Text(c)|); 0 <= t < NTOKENS && !(34 <= t <= 36)
    ensures Leads(k, Config(s, pos), Config(Push(s, Goto(StateOf(s), TERM), c), pos + |Text(c)|))
    decreases c, 3
  {
    hide Leads, Goto, Defact, Lhs, Len, At, Shift, Pact, Text, Resolves, Operator;
    if IsProduct(c) {
      ProductRuns(k, s, pos, c);
    } else {
      BinaryText(k, pos, c);
      var mid := pos + |Text(c.left)|;
      var t := c.op.kind;
      TermGoto(StateOf(s));
      var q1 := Goto(StateOf(s), TERM);
      TermRuns(k, s, pos, c.left);
      TermActions(q1, t);
      TermGoto(t + 2);
      ProductRuns(k, Push(Push(s, q1, c.left), t + 2, Tok(c.op)), mid + 1, c.right);
      RuleShapes(t + 22);
      TermActions(t + 22, Peek(k, pos + |Text(c)|));
      ResolvesAt(k, t + 22, pos + |Text(c)|);
      BinaryRuns(k, s, pos, q1, c.left, mid, t + 2, t + 22, c.right, pos + |Text(c)|);
    }
  }

  lemma SubruleGoto(p: int)
    ensures p == 0 || p == 10 || p == 11 ==> Goto(p, SUBRULE) == 14
    ensures p == 23 || p == 24 ==> Goto(p, SUBRULE) == p + 17
    ensures p == 0 ==> Goto(p, RULE) == 13
    ensures p == 10 ==> Goto(p, RULE) == 19
    ensures p == 11 ==> Goto(p, RULE) == 20
  {}

  lemma ElementGoto(p: int)
    ensures p == 31 || p == 32 ==> Goto(p, AGGR) == p + 19
    ensures p == 33 ==> Goto(p, REGEX_RULE) == 53
  {}

  /** The set or regular expression on the right of a membership test or a match. */
  lemma ElementRuns<D(!new)>(k: seq<Token<D>>, s: Stack<D>, pos: nat, op: int, c: Parse<D>)
    requires StateOf(s) == op + 2 && 29 <= op <= 31 && RightSide(op, c) && At(k, pos, c)
    ensures |Text(c)| == 1
    ensures Leads(k, Config(s, pos), Config(Push(s, if op == MATCH then 53 else op + 21, c), pos + 1))
  {
    Here(k, Config(s, pos));
    assert c.Element? && Text(c)[0] == c.t && k[pos + 0] == c.t;
    var t := c.t.kind;
    var q := if t == REGEX then 52 else t + 32;
    ElementShift(StateOf(s), t);
    hide Leads, CheckAt, TableAt, Goto, Shift, Defact, Len, Lhs, Pact;
    ByShift(k, Config(s, pos), s, pos, q);
    ResolvesAlways(k, q, pos + 1);
    PopOne(s, q, Tok(c.t));
    ByReduce(k, Config(s, pos), Push(s, q, Tok(c.t)), pos + 1, s, [Tok(c.t)]);
  }

  lemma ElementShift(p: int, t: int)
    requires ((p == 31 || p == 32) && 16 <= t <= 17) || (p == 33 && t == REGEX)
    ensures p != FINAL && Pact(p) != PACT_NINF
    ensures var q := if t == REGEX then 52 else t + 32;
      && Shift(p, t) == q && q != FINAL && Pact(q) == PACT_NINF && 23 <= Defact(q) <= 25 && Len(Defact(q)) == 1
        && Operator(Defact(q)) == 0
      && Goto(p, Lhs(Defact(q))) == if p == 33 then 53 else p + 19
  {
    ShiftExpect(p, t);
    ElementGoto(p);
    hide Shift, CheckAt, TableAt, Goto;
  }

  /** The right operand of a comparison. */
  lemma RightRuns<D(!new)>(k: seq<Token<D>>, s: Stack<D>, pos: nat, op: int, c: Parse<D>)
    requires StateOf(s) == op + 2 && 23 <= op <= 31 && RightSide(op, c) && At(k, pos, c)
    requires var t := Peek(k, pos + |Text(c)|); 0 <= t < NTOKENS && !(32 <= t <= 36)
    ensures var q := RightState(op);
      Leads(k, Config(s, pos), Config(Push(s, q, c), pos + |Text(c)|)) && Resolves(k, q, pos + |Text(c)|)
        && BinaryRule(Defact(q), SUBRULE)
    decreases c, 4
  {
    hide Leads, Goto, Defact, Lhs, Len, At, Shift, Pact, Text, Resolves, Operator;
    var end := pos + |Text(c)|;
    RuleShapes(RightState(op));
    if op <= 28 {
      TermGoto(op + 2);
      TermRuns(k, s, pos, c);
      TermActions(op + 19, Peek(k, end));
      ResolvesAt(k, op + 19, end);
    } else {
      ElementRuns(k, s, pos, op, c);
      ResolvesAlways(k, RightState(op), end);
    }
  }

  function RightState(op: int): int {
    if op <= 28 then op + 19 else if op == MATCH then 53 else op + 21
  }

  lemma {:induction false} SubruleRuns<D(!new)>(k: seq<Token<D>>, s: Stack<D>, pos: nat, c: Parse<D>)
    requires var p := StateOf(s); p == 0 || p == 10 || p == 11 || p == 23 || p == 24
    requires IsSubrule(c) && At(k, pos, c)
    requires var t := Peek(k, pos + |Text(c)|); 0 <= t < NTOKENS && !(32 <= t <= 36)
    ensures Leads(k, Config(s, pos), Config(Push(s, Goto(StateOf(s), SUBRULE), c), pos + |Text(c)|))
    decreases c, 4
  {
    hide Leads, Goto, Defact, Lhs, Len, At, Shift, Pact, Text, Resolves, Operator;
    var end := pos + |Text(c)|;
    if IsTerm(c) {
      TermGoto(StateOf(s));
      TermRuns(k, s, pos, c);
      TermActions(15, Peek(k, end));
      ResolvesAt(k, 15, end);
      RuleShapes(15);
      UnitRuns(k, Config(s, pos), s, 15, c, end);
    } else {
      BinaryText(k, pos, c);
      var mid := pos + |Text(c.left)|;
      var t := c.op.kind;
      SubruleGoto(StateOf(s));
      var q1 := Goto(StateOf(s), SUBRULE);
      SubruleRuns(k, s, pos, c.left);
      SubruleActions(q1, t);
      RightRuns(k, Push(Push(s, q1, c.left), t + 2, Tok(c.op)), mid + 1, t, c.right);
      BinaryRuns(k, s, pos, q1, c.left, mid, t + 2, RightState(t), c.right, end);
    }
  }

  lemma NegationText<D>(k: seq<Token<D>>, pos: nat, c: Parse<D>)
    requires c.Negation? && At(k, pos, c)
    ensures |Text(c)| == 1 + |Text(c.inner)| && pos < |k| && k[pos] == c.not && At(k, pos + 1, c.inner)
  {
    assert k[pos + 0] == Text(c)[0];
    forall i | 0 <= i < |Text(c.inner)| ensures k[pos + 1 + i] == Text(c.inner)[i] {
      assert k[pos + (1 + i)] == Text(c)[1 + i];
    }
  }

  lemma {:induction false} UnaryRuns<D(!new)>(k: seq<Token<D>>, s: Stack<D>, pos: nat, c: Parse<D>)
    requires var p := StateOf(s); p == 0 || p == 10 || p == 11
    requires IsUnary(c) && At(k, pos, c)
    requires var t := Peek(k, pos + |Text(c)|); 0 <= t < NTOKENS && !(23 <= t <= 36)
    ensures Leads(k, Config(s, pos), Config(Push(s, Goto(StateOf(s), RULE), c), pos + |Text(c)|))
    decreases c, 5
  {
    hide Leads, Goto, Defact, Lhs, Len, At, Shift, Pact, Text, Resolves;
    var end := pos + |Text(c)|;
    if IsSubrule(c) {
      SubruleGoto(StateOf(s));
      SubruleRuns(k, s, pos, c);
      SubruleActions(14, Peek(k, end));
      ResolvesAt(k, 14, end);
      RuleShapes(14);
      UnitRuns(k, Config(s, pos), s, 14, c, end);
    } else {
      NegationText(k, pos, c);
      OpeningShifts(StateOf(s), NOT);
      Here(k, Config(s, pos));
      ByShift(k, Config(s, pos), s, pos, 11);
      UnaryRuns(k, Push(s, 11, Tok(c.not)), pos + 1, c.inner);
      SubruleGoto(11);
      Then(k, Config(s, pos), Config(Push(s, 11, Tok(c.not)), pos + 1),
        Config(Push(Push(s, 11, Tok(c.not)), 20, c.inner), end));
      NotRuns(k, Config(s, pos), s, c, end);
    }
  }

  lemma NotRuns<D(!new)>(k: seq<Token<D>>, start: Config<D>, s: Stack<D>, c: Parse<D>, end: nat)
    requires c.Negation? && Leads(k, start, Config(Push(Push(s, 11, Tok(c.not)), 20, c.inner), end))
    ensures Leads(k, start, Config(Push(s, Goto(StateOf(s), RULE), c), end))
  {
    PopTwo(s, 11, Tok(c.not), 20, c.inner);
    hide Leads, Goto;
    ByReduce(k, start, Push(Push(s, 11, Tok(c.not)), 20, c.inner), end, s, [Tok(c.not), c.inner]);
  }

  lemma RuleActions(q: int, t: int)
    requires AtRule(q)
    ensures q != FINAL && Pact(q) != PACT_NINF
    ensures t == OR || t == AND ==> Shift(q, t) == t + 2
  {
    if 0 <= t < NTOKENS { ShiftExpect(q, t); }
    hide CheckAt, TableAt, Shift;
  }

  lemma {:induction false} RuleRuns<D(!new)>(k: seq<Token<D>>, s: Stack<D>, pos: nat, c: Parse<D>)
    requires (StateOf(s) == 0 || StateOf(s) == 10) && IsRule(c) && At(k, pos, c)
    requires var t := Peek(k, pos + |Text(c)|); 0 <= t < NTOKENS && !(23 <= t <= 36)
    ensures Leads(k, Config(s, pos), Config(Push(s, Goto(StateOf(s), RULE), c), pos + |Text(c)|))
    decreases c, 6
  {
    hide Leads, Goto, Defact, Lhs, Len, At, Shift, Pact, Text, Resolves, Operator;
    var end := pos + |Text(c)|;
    if IsUnary(c) {
      UnaryRuns(k, s, pos, c);
    } else {
      BinaryText(k, pos, c);
      var mid := pos + |Text(c.left)|;
      var t := c.op.kind;
      SubruleGoto(StateOf(s));
      var q1 := Goto(StateOf(s), RULE);
      RuleRuns(k, s, pos, c.left);
      RuleActions(q1, t);
      SubruleRuns(k, Push(Push(s, q1, c.left), t + 2, Tok(c.op)), mid + 1, c.right);
      SubruleGoto(t + 2);
      SubruleActions(t + 19, Peek(k, end));
      ResolvesAt(k, t + 19, end);
      RuleShapes(t + 19);
      BinaryRuns(k, s, pos, q1, c.left, mid, t + 2, t + 19, c.right, end);
    }
  }

  /** Where the automaton accepts: a line, and the end of the input. */
  function Final<D>(c: Parse<D>, semi: Token<D>, end: Token<D>): Stack<D> {
    Push(Push(Start, 12, Line(c, semi)), FINAL, Tok(end))
  }

  /** The automaton reads every rule with its semicolon and the end of input, and takes it for what
      it is. */
  lemma SentenceRuns<D(!new)>(k: seq<Token<D>>, c: Parse<D>)
    requires IsRule(c) && At(k, 0, c) && |k| == |Text(c)| + 2 && k[|k| - 2].kind == SEMI && k[|k| - 1].kind == END
    ensures Leads(k, Config(Start, 0), Config(Final(c, k[|k| - 2], k[|k| - 1]), |k|))
  {
    var start: Config<D>, s: Stack<D> := Config(Start, 0), Start;
    var n := |Text(c)|;
    RuleRuns(k, s, 0, c);
    SubruleGoto(0);
    hide Leads, CheckAt, TableAt, Shift, Goto, At, Text, Pact, Defact, Len, Lhs, IsRule;
    LineRule();
    ByShift(k, start, Push(s, 13, c), n, 22);
    PopTwo(s, 13, c, 22, Tok(k[n]));
    LineBuild(c, k[n]);
    ResolvesAlways(k, 22, n + 1);
    ByReduce(k, start, Push(Push(s, 13, c), 22, Tok(k[n])), n + 1, s, [c, Tok(k[n])]);
    ByShift(k, start, Push(s, 12, Line(c, k[n])), n + 1, 21);
  }

  lemma LineRule()
    ensures Shift(13, SEMI) == 22 && Pact(13) != PACT_NINF && Pact(22) == PACT_NINF
    ensures Defact(22) == 2 && Len(2) == 2 && Lhs(2) == LINE && Goto(0, LINE) == 12
    ensures Shift(12, END) == 21 && Pact(12) != PACT_NINF
  {
    ShiftExpect(13, SEMI);
    ShiftExpect(12, END);
    GotoEdge(0, LINE);
  }

  lemma LineBuild<D>(c: Parse<D>, semi: Token<D>)
    ensures Len(2) == 2 && Build(2, [c, Tok(semi)]) == Line(c, semi)
  {}

  // ----- there is one way to read a sentence ---------------------------------------------------

  /** Two dead ends on one path are the same. */
  lemma DeadEnd<D(!new)>(k: seq<Token<D>>, n: nat, c: Config<D>, d: Config<D>)
    requires Steps(k, Config(Start, 0), n) == Some(c) && Next(k, c) == None
    requires Leads(k, Config(Start, 0), d) && Next(k, d) == None
    ensures c == d
  {
    hide Next;
    var m: nat :| Steps(k, Config(Start, 0), m) == Some(d);
    if m >= n {
      StepsAdd(k, Config(Start, 0), c, n, m - n);
    } else {
      StepsAdd(k, Config(Start, 0), d, m, n - m);
    }
  }

  /** The language is unambiguous: a text has at most one parse by levels. */
  lemma Unambiguous<D(!new)>(c: Parse<D>, d: Parse<D>)
    requires IsRule(c) && IsRule(d) && Text(c) == Text(d)
    ensures c == d
  {
    var leaf: Expr<D> := Expr(Rel, NoOp, 0, Bool, None, []);
    var semi, end := Token(SEMI, leaf), Token(END, leaf);
    var k := Text(c) + [semi] + [end];
    hide Text, IsRule, Next;
    SentenceRuns(k, c);
    SentenceRuns(k, d);
    var n: nat :| Steps(k, Config(Start, 0), n) == Some(Config(Final(c, semi, end), |k|));
    FinalStops(k, c, semi, end);
    FinalStops(k, d, semi, end);
    DeadEnd(k, n, Config(Final(c, semi, end), |k|), Config(Final(d, semi, end), |k|));
  }

  lemma FinalStops<D>(k: seq<Token<D>>, c: Parse<D>, semi: Token<D>, end: Token<D>)
    ensures Next(k, Config(Final(c, semi, end), |k|)) == None
  {}
}
