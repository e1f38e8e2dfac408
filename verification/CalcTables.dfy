/** The LALR tables of the rule parser, and the automaton they encode. */
module CalcTables {
  /** yypact: where the actions of a state start in the table; -17 means there is only a default. */
  function Pact(n: int): int {
    match n
    case 0 => -7 case 9 => 20 case 10 => -7 case 11 => -7 case 12 => 12 case 13 => 0
    case 14 => 33 case 15 => 34 case 19 => 3 case 23 => 2 case 24 => 2 case 25 => 2
    case 26 => 2 case 27 => 2 case 28 => 2 case 29 => 2 case 30 => 2 case 31 => 15
    case 32 => 15 case 33 => 5 case 34 => 2 case 35 => 2 case 36 => 2 case 37 => 2
    case 38 => 2 case 40 => 33 case 41 => 33 case 42 => 34 case 43 => 34 case 44 => 34
    case 45 => 34 case 46 => 34 case 47 => 34 case 54 => -16 case 55 => -16
    case _ => -17
  }

  /** yydefact: the rule a state reduces by default; 0 is an error. */
  function Defact(n: int): int {
    match n
    case 1 => 26 case 2 => 28 case 3 => 30 case 4 => 31 case 5 => 32 case 6 => 33
    case 7 => 34 case 8 => 35 case 14 => 6 case 15 => 16 case 16 => 22 case 17 => 27
    case 18 => 29 case 20 => 5 case 21 => 1 case 22 => 2 case 39 => 36 case 40 => 3
    case 41 => 4 case 42 => 11 case 43 => 12 case 44 => 7 case 45 => 8 case 46 => 9
    case 47 => 10 case 48 => 23 case 49 => 24 case 50 => 13 case 51 => 14 case 52 => 25
    case 53 => 15 case 54 => 17 case 55 => 18 case 56 => 19 case 57 => 20 case 58 => 21
    case _ => 0
  }

  /** yypgoto, by nonterminal. */
  function Pgoto(n: int): int {
    match n
    case 45 => -17 case 46 => -17 case 47 => 23 case 48 => 14 case 49 => 17 case 50 => -3
    case 51 => -17 case 52 => -17
    case _ => 0
  }

  /** yydefgoto, by nonterminal. */
  function Defgoto(n: int): int {
    match n
    case 45 => -1 case 46 => 12 case 47 => 13 case 48 => 14 case 49 => 15 case 50 => 50
    case 51 => 53 case 52 => 16
    case _ => 0
  }

  /** yytable. */
  function TableAt(n: int): int {
    match n
    case 0 => 1 case 1 => 2 case 2 => 3 case 3 => 22 case 4 => 4 case 5 => 5
    case 6 => 6 case 7 => 7 case 8 => 8 case 9 => 1 case 10 => 2 case 11 => 3
    case 12 => 21 case 13 => 4 case 14 => 5 case 15 => 6 case 16 => 7 case 17 => 8
    case 18 => 36 case 19 => 37 case 20 => 38 case 21 => 23 case 22 => 24 case 23 => 52
    case 24 => 23 case 25 => 24 case 26 => 9 case 27 => 17 case 28 => 18 case 29 => 51
    case 30 => 10 case 31 => 48 case 32 => 49 case 33 => 19 case 34 => 20 case 35 => 9
    case 36 => 11 case 37 => 40 case 38 => 41 case 39 => 10 case 41 => 39 case 42 => 42
    case 43 => 43 case 44 => 44 case 45 => 45 case 46 => 46 case 47 => 47 case 51 => 54
    case 52 => 55 case 53 => 56 case 54 => 57 case 55 => 58 case 56 => 25 case 57 => 26
    case 58 => 27 case 59 => 28 case 60 => 29 case 61 => 30 case 62 => 31 case 63 => 32
    case 64 => 33 case 66 => 34 case 67 => 35 case 68 => 36 case 69 => 37 case 70 => 38
    case _ => 0
  }

  /** yycheck: the symbol or state an entry of the table is for. */
  function CheckAt(n: int): int {
    match n
    case 0 => 7 case 1 => 8 case 2 => 9 case 3 => 3 case 4 => 11 case 5 => 12
    case 6 => 13 case 7 => 14 case 8 => 15 case 9 => 7 case 10 => 8 case 11 => 9
    case 12 => 0 case 13 => 11 case 14 => 12 case 15 => 13 case 16 => 14 case 17 => 15
    case 18 => 34 case 19 => 35 case 20 => 36 case 21 => 21 case 22 => 22 case 23 => 18
    case 24 => 21 case 25 => 22 case 26 => 33 case 27 => 7 case 28 => 8 case 29 => 32
    case 30 => 37 case 31 => 16 case 32 => 17 case 33 => 10 case 34 => 11 case 35 => 33
    case 36 => 43 case 37 => 23 case 38 => 24 case 39 => 37 case 41 => 38 case 42 => 25
    case 43 => 26 case 44 => 27 case 45 => 28 case 46 => 29 case 47 => 30 case 51 => 34
    case 52 => 35 case 53 => 36 case 54 => 37 case 55 => 38 case 56 => 23 case 57 => 24
    case 58 => 25 case 59 => 26 case 60 => 27 case 61 => 28 case 62 => 29 case 63 => 30
    case 64 => 31 case 66 => 32 case 67 => 33 case 68 => 34 case 69 => 35 case 70 => 36
    case _ => -1
  }

  /** yystos: the symbol a state is entered by. */
  function Stos(n: int): int {
    match n
    case 1 => 7 case 2 => 8 case 3 => 9 case 4 => 11 case 5 => 12 case 6 => 13
    case 7 => 14 case 8 => 15 case 9 => 33 case 10 => 37 case 11 => 43 case 12 => 46
    case 13 => 47 case 14 => 48 case 15 => 49 case 16 => 52 case 17 => 7 case 18 => 8
    case 19 => 47 case 20 => 47 case 22 => 3 case 23 => 21 case 24 => 22 case 25 => 23
    case 26 => 24 case 27 => 25 case 28 => 26 case 29 => 27 case 30 => 28 case 31 => 29
    case 32 => 30 case 33 => 31 case 34 => 32 case 35 => 33 case 36 => 34 case 37 => 35
    case 38 => 36 case 39 => 38 case 40 => 48 case 41 => 48 case 42 => 49 case 43 => 49
    case 44 => 49 case 45 => 49 case 46 => 49 case 47 => 49 case 48 => 16 case 49 => 17
    case 50 => 50 case 51 => 50 case 52 => 18 case 53 => 51 case 54 => 49 case 55 => 49
    case 56 => 49 case 57 => 49 case 58 => 49
    case _ => 0
  }

  /** yyr1: the nonterminal a rule makes. */
  function Lhs(n: int): int {
    match n
    case 1 => 45 case 2 => 46 case 3 => 47 case 4 => 47 case 5 => 47 case 6 => 47
    case 7 => 48 case 8 => 48 case 9 => 48 case 10 => 48 case 11 => 48 case 12 => 48
    case 13 => 48 case 14 => 48 case 15 => 48 case 16 => 48 case 17 => 49 case 18 => 49
    case 19 => 49 case 20 => 49 case 21 => 49 case 22 => 49 case 23 => 50 case 24 => 50
    case 25 => 51 case 26 => 52 case 27 => 52 case 28 => 52 case 29 => 52 case 30 => 52
    case 31 => 52 case 32 => 52 case 33 => 52 case 34 => 52 case 35 => 52 case 36 => 52
    case _ => 0
  }

  /** yyr2: the length of a rule. */
  function Len(n: int): int {
    match n
    case 1 => 2 case 2 => 2 case 3 => 3 case 4 => 3 case 5 => 2 case 6 => 1
    case 7 => 3 case 8 => 3 case 9 => 3 case 10 => 3 case 11 => 3 case 12 => 3
    case 13 => 3 case 14 => 3 case 15 => 3 case 16 => 1 case 17 => 3 case 18 => 3
    case 19 => 3 case 20 => 3 case 21 => 3 case 22 => 1 case 23 => 1 case 24 => 1
    case 25 => 1 case 26 => 1 case 27 => 2 case 28 => 1 case 29 => 2 case 30 => 1
    case 31 => 1 case 32 => 1 case 33 => 1 case 34 => 1 case 35 => 1 case 36 => 3
    case _ => 0
  }

  // Symbol numbers: the terminals the grammar uses, then the nonterminals.
  const END := 0
  const SEMI := 3
  const NUM := 7
  const FNUM := 8
  const STR := 9
  const CID := 11
  const FID := 12
  const SID := 13
  const DID := 14
  const HID := 15
  const SET := 16
  const MULTI := 17
  const REGEX := 18
  const OR := 21
  const AND := 22
  const EQ := 23
  const NEQ := 24
  const LT := 25
  const LE := 26
  const GT := 27
  const GE := 28
  const BL := 29
  const NBL := 30
  const MATCH := 31
  const PLUS := 32
  const SUB := 33
  const MUT := 34
  const DIV := 35
  const MOD := 36
  const LP := 37
  const RP := 38
  const NOT := 43
  const NTOKENS := 45
  const LINE := 46
  const RULE := 47
  const SUBRULE := 48
  const TERM := 49
  const AGGR := 50
  const REGEX_RULE := 51
  const PRIMARY := 52

  const NSTATES := 59
  const FINAL := 21
  const LAST := 70
  const PACT_NINF := -17

  /** The state shifted to, or 0 where the table has no action for the token. */
  function Shift(p: int, t: int): int {
    var n := Pact(p) + t;
    if Pact(p) == PACT_NINF || n < 0 || LAST < n || CheckAt(n) != t then 0 else TableAt(n)
  }

  /** The state after a reduction to nonterminal a on top of state p. */
  function Goto(p: int, a: int): int {
    var n := Pgoto(a) + p;
    if 0 <= n <= LAST && CheckAt(n) == p then TableAt(n) else Defgoto(a)
  }

  // ----- the automaton ---------------------------------------------------------------------

  /** States that expect a primary. */
  predicate Opening(p: int) {
    p == 0 || p == 10 || p == 11 || 23 <= p <= 30 || 34 <= p <= 38
  }

  predicate AtRule(q: int) {
    q == 13 || q == 19
  }

  predicate AtSubrule(q: int) {
    q == 14 || q == 40 || q == 41
  }

  /** States on top of a term that plus and minus may extend. */
  predicate AtSum(q: int) {
    q == 15 || 42 <= q <= 47
  }

  /** States on top of a term that only `*`, `/` and `%` may extend. */
  predicate AtProduct(q: int) {
    q == 54 || q == 55
  }

  /** State q may lie directly on state p. */
  predicate Edge(p: int, q: int) {
    if 1 <= q <= 10 || q == 16 then Opening(p)
    else if q == 11 then p == 0 || p == 10 || p == 11
    else if q == 12 || q == 13 then p == 0
    else if q == 14 then p == 0 || p == 10 || p == 11
    else if q == 15 then p == 0 || p == 10 || p == 11 || p == 23 || p == 24
    else if q == 17 || q == 18 then p == 9
    else if q == 19 then p == 10
    else if q == 20 then p == 11
    else if q == 21 then p == 12
    else if q == 22 then p == 13
    else if q == 23 || q == 24 then AtRule(p)
    else if 25 <= q <= 33 then AtSubrule(p)
    else if q == 34 || q == 35 then AtSum(p)
    else if 36 <= q <= 38 then AtSum(p) || AtProduct(p)
    else if q == 39 then p == 19
    else if q == 40 || q == 41 || 42 <= q <= 47 then p == q - 17
    else if q == 48 || q == 49 then p == 31 || p == 32
    else if q == 50 || q == 51 then p == q - 19
    else if q == 52 || q == 53 then p == 33
    else 54 <= q <= 58 && p == q - 20
  }

  /** What the table holds for a token in the row that starts at v. */
  function Row(v: int, t: int): int {
    var n := v + t;
    if n < 0 || LAST < n || CheckAt(n) != t then 0 else TableAt(n)
  }

  /** The rows written out: what each kind of state may shift. */
  function Expect(v: int, t: int): int {
    if v == -7 || v == 2 then
      if 7 <= t <= 9 then t - 6
      else if 11 <= t <= 15 then t - 7
      else if t == SUB then 9
      else if t == LP then 10
      else if t == NOT && v == -7 then 11
      else 0
    else if v == 20 then (if t == NUM then 17 else if t == FNUM then 18 else 0)
    else if v == 12 then (if t == END then 21 else 0)
    else if v == 0 then (if t == SEMI then 22 else if t == OR then 23 else if t == AND then 24 else 0)
    else if v == 3 then (if t == OR then 23 else if t == AND then 24 else if t == RP then 39 else 0)
    else if v == 33 then (if 23 <= t <= 31 then t + 2 else 0)
    else if v == 34 then (if 32 <= t <= 36 then t + 2 else 0)
    else if v == -16 then (if 34 <= t <= 36 then t + 2 else 0)
    else if v == 15 then (if t == SET then 48 else if t == MULTI then 49 else 0)
    else if v == 5 then (if t == REGEX then 52 else 0)
    else 0
  }

  lemma Row0(t: int)
    requires 0 <= t < NTOKENS
    ensures Row(-7, t) == Expect(-7, t)
  {}

  lemma Row1(t: int)
    requires 0 <= t < NTOKENS
    ensures Row(2, t) == Expect(2, t)
  {}

  lemma Row2(t: int)
    requires 0 <= t < NTOKENS
    ensures Row(20, t) == Expect(20, t)
  {}

  lemma Row3(t: int)
    requires 0 <= t < NTOKENS
    ensures Row(12, t) == Expect(12, t)
  {}

  lemma Row4(t: int)
    requires 0 <= t < NTOKENS
    ensures Row(0, t) == Expect(0, t)
  {}

  lemma Row5(t: int)
    requires 0 <= t < NTOKENS
    ensures Row(3, t) == Expect(3, t)
  {}

  lemma Row6(t: int)
    requires 0 <= t < NTOKENS
    ensures Row(33, t) == Expect(33, t)
  {}

  lemma Row7(t: int)
    requires 0 <= t < NTOKENS
    ensures Row(34, t) == Expect(34, t)
  {}

  lemma Row8(t: int)
    requires 0 <= t < NTOKENS
    ensures Row(-16, t) == Expect(-16, t)
  {}

  lemma Row9(t: int)
    requires 0 <= t < NTOKENS
    ensures Row(15, t) == Expect(15, t)
  {}

  lemma Row10(t: int)
    requires 0 <= t < NTOKENS
    ensures Row(5, t) == Expect(5, t)
  {}

  lemma ShiftExpect(p: int, t: int)
    requires 0 <= p < NSTATES && 0 <= t < NTOKENS
    ensures Shift(p, t) == if Pact(p) == PACT_NINF then 0 else Expect(Pact(p), t)
  {
    hide CheckAt, TableAt, Expect;
    var v := Pact(p);
    if v == -7 { Row0(t); } else if v == 2 { Row1(t); } else if v == 20 { Row2(t); } else if v == 12 { Row3(t); }
    else if v == 0 { Row4(t); } else if v == 3 { Row5(t); } else if v == 33 { Row6(t); } else if v == 34 { Row7(t); }
    else if v == -16 { Row8(t); } else if v == 15 { Row9(t); } else if v == 5 { Row10(t); }
  }

  /** Every shift follows an edge of the automaton and enters a state by the token shifted. */
  lemma ShiftEdge(p: int, t: int)
    requires 0 <= p < NSTATES && 0 <= t < NTOKENS && Shift(p, t) != 0
    ensures Edge(p, Shift(p, t)) && Stos(Shift(p, t)) == t && 0 < Shift(p, t) < NSTATES
  {
    ShiftExpect(p, t);
    PactClass(p);
    var v := Pact(p);
    var q := Shift(p, t);
    hide CheckAt, TableAt, Shift, Pact;
    if v == -7 || v == 2 {
      assert 1 <= q <= 11;
    } else if v == 33 || v == 34 || v == -16 {
      assert 25 <= q <= 38;
    } else {
      assert q == 17 || q == 18 || 21 <= q <= 24 || q == 39 || q == 48 || q == 49 || q == 52;
    }
  }

  lemma PactClass(p: int)
    requires 0 <= p < NSTATES
    ensures match Pact(p)
      case -7 => p == 0 || p == 10 || p == 11
      case 2 => 23 <= p <= 30 || 34 <= p <= 38
      case 20 => p == 9
      case 12 => p == 12
      case 0 => p == 13
      case 3 => p == 19
      case 33 => AtSubrule(p)
      case 34 => AtSum(p)
      case -16 => AtProduct(p)
      case 15 => p == 31 || p == 32
      case 5 => p == 33
      case _ => Pact(p) == PACT_NINF
  {}

  predicate AtTerm(q: int) {
    AtSum(q) || AtProduct(q) || 56 <= q <= 58
  }

  /** Where the parser goes after reducing to a nonterminal: the one state of that symbol that
      may lie on the state below. */
  lemma GotoEdge(p: int, a: int)
    requires 0 <= p < NSTATES
    requires match a
      case 46 => p == 0
      case 47 => p == 0 || p == 10 || p == 11
      case 48 => p == 0 || p == 10 || p == 11 || p == 23 || p == 24
      case 49 => Opening(p)
      case 50 => p == 31 || p == 32
      case 51 => p == 33
      case 52 => Opening(p)
      case _ => false
    ensures Edge(p, Goto(p, a)) && Stos(Goto(p, a)) == a && 0 < Goto(p, a) < NSTATES
    ensures match a
      case 46 => Goto(p, a) == 12
      case 47 => AtRule(Goto(p, a)) || Goto(p, a) == 20
      case 48 => AtSubrule(Goto(p, a))
      case 49 => AtTerm(Goto(p, a))
      case 50 => Goto(p, a) == 50 || Goto(p, a) == 51
      case 51 => Goto(p, a) == 53
      case _ => Goto(p, a) == 16
  {}

  /** Symbol and position below determine the state. */
  lemma EdgeDetermined(p: int, q: int)
    requires 0 <= p < NSTATES && 0 < q < NSTATES && Edge(p, q) && Stos(q) > NTOKENS
    ensures q == Goto(p, Stos(q))
  {}

  /** An entry of the table that is for some symbol is a state to go to. */
  lemma EntryIsState(n: int)
    requires 0 <= n <= LAST && CheckAt(n) >= 0
    ensures 0 < TableAt(n) < NSTATES
  {}

  /** No state shifts the error token, so error recovery can only give up. */
  lemma NoRecovery(p: int)
    requires 0 <= p < NSTATES
    ensures Shift(p, 1) == 0
  {
    ShiftExpect(p, 1);
  }
}
