/** The LALR parser of rule expressions: the driver over the tables and the actions that build
    the tree. It accepts exactly the sentences that have a parse in which `*`, `/` and `%` bind
    tighter than `+` and `-`, those tighter than comparisons, and these tighter than `&&` and `||`. */
module CalcParser {
  import opened Options
  import opened CalcSpec
  import opened CalcTables
  import opened CalcGrammar
  import opened CalcStack
  import opened CalcAccept
  import opened CalcValue

  // ----- the driver ------------------------------------------------------------------------

  const EMPTY := -2
  const YYMAXDEPTH := 10000

  datatype Result<D> = Accepted(tree: Expr<D>) | SyntaxError | Exhausted

  /** The tokens as the scanner delivers them, and the end of input. */
  function Input<D>(tokens: seq<Token<D>>, end: Token<D>): seq<Token<D>> {
    tokens + [end]
  }

  ghost predicate InputOk<D>(input: seq<Token<D>>) {
    && input != [] && input[|input| - 1].kind == END
    && forall i :: 0 <= i < |input| - 1 ==> 2 <= input[i].kind < NTOKENS
  }

  /** Between two steps: the stacks are sound, stack and lookahead are the tokens read, and the
      scanner's last leaf is that of the lookahead, or of the operand on top. */
  ghost predicate Inv<D>(neg: D -> D, input: seq<Token<D>>, ss: seq<int>, cs: seq<Parse<D>>, vs: seq<Expr<D>>,
      yychar: int, yylval: Expr<D>, pos: nat) {
    && InputOk(input) && StackOk(neg, ss, cs, vs) && Tight(ss, cs) && pos <= |input|
    && (yychar == EMPTY || (pos > 0 && yychar == input[pos - 1].kind))
    && FlatText(cs) == input[..if yychar == EMPTY then pos else pos - 1]
    && (yychar != EMPTY && OperandKind(yychar) ==> yylval == input[pos - 1].leaf)
    && (TopOperand(Top(ss)) ==> yychar == EMPTY && cs != [] && cs[|cs| - 1].Tok? && yylval == cs[|cs| - 1].t.leaf)
    && (AtSum(Top(ss)) ==> cs != [] && (IsProduct(cs[|cs| - 1]) || (yychar != EMPTY && !(34 <= yychar <= 36))))
    && (pos == |input| && yychar == EMPTY ==> Top(ss) == FINAL)
  }

  lemma TopOperandFacts(q: int)
    requires 0 <= q < NSTATES
    ensures TopOperand(q) ==> Pact(q) == PACT_NINF && q != FINAL && !AtSum(q)
    ensures Stos(q) > NTOKENS ==> !TopOperand(q) && q != FINAL && !(36 <= q <= 38)
    ensures 0 < q && Stos(q) == END ==> q == FINAL
    ensures TopOperand(q) ==> OperandKind(Stos(q))
    ensures Stos(q) < NTOKENS ==> !AtSum(q)
    ensures AtProduct(q) ==> Pact(q) == -16
    ensures Defact(q) == 17 || Defact(q) == 18 ==> AtProduct(q)
    ensures 36 <= q <= 38 ==> 34 <= Stos(q) <= 36
  {}

  lemma TopInRange<D>(neg: D -> D, ss: seq<int>, cs: seq<Parse<D>>, vs: seq<Expr<D>>)
    requires StackOk(neg, ss, cs, vs)
    ensures ss != [] && 0 <= Top(ss) < NSTATES
  {
    StatesInRange(neg, ss, cs, vs);
  }

  /** Reading a token into the empty lookahead. */
  lemma LexStep<D>(neg: D -> D, input: seq<Token<D>>, ss: seq<int>, cs: seq<Parse<D>>, vs: seq<Expr<D>>,
      yylval: Expr<D>, pos: nat)
    requires Inv(neg, input, ss, cs, vs, EMPTY, yylval, pos) && Top(ss) != FINAL && Pact(Top(ss)) != PACT_NINF
    ensures pos < |input| && 0 <= input[pos].kind < NTOKENS
    ensures Inv(neg, input, ss, cs, vs, input[pos].kind, if OperandKind(input[pos].kind) then input[pos].leaf
      else yylval, pos + 1)
  {
    TopInRange(neg, ss, cs, vs);
    TopOperandFacts(Top(ss));
    hide StackOk, Tight, FlatText, IsProduct, Pact, Stos, Defact;
  }

  /** Shifting the lookahead. */
  lemma ShiftStep<D>(neg: D -> D, input: seq<Token<D>>, ss: seq<int>, cs: seq<Parse<D>>, vs: seq<Expr<D>>,
      yychar: int, yylval: Expr<D>, pos: nat)
    requires Inv(neg, input, ss, cs, vs, yychar, yylval, pos) && 0 <= yychar < NTOKENS && Shift(Top(ss), yychar) != 0
    ensures Inv(neg, input, ss + [Shift(Top(ss), yychar)], cs + [Tok(input[pos - 1])], vs + [yylval], EMPTY, yylval,
      pos)
  {
    var q := Shift(Top(ss), yychar);
    var c := Tok(input[pos - 1]);
    TopInRange(neg, ss, cs, vs);
    ShiftEdge(Top(ss), yychar);
    TopOperandFacts(q);
    ShiftStack(neg, ss, cs, vs, q, input[pos - 1], yylval);
    hide StackOk, Tight, FlatText, IsProduct, EntryOk, Edge, Stos, Shift, LevelOk, Pact, Defact, AtSum;
    assert input[..pos] == input[..pos - 1] + [input[pos - 1]];
  }

  lemma ShiftStack<D>(neg: D -> D, ss: seq<int>, cs: seq<Parse<D>>, vs: seq<Expr<D>>, q: int, t: Token<D>, v: Expr<D>)
    requires StackOk(neg, ss, cs, vs) && Tight(ss, cs) && 0 < q < NSTATES && Edge(Top(ss), q)
      && Stos(q) == t.kind < NTOKENS
    requires 34 <= t.kind <= 36 && AtSum(Top(ss)) ==> cs != [] && IsProduct(cs[|cs| - 1])
    ensures StackOk(neg, ss + [q], cs + [Tok(t)], vs + [v]) && Tight(ss + [q], cs + [Tok(t)])
    ensures FlatText(cs + [Tok(t)]) == FlatText(cs) + [t]
  {
    var c := Tok(t);
    TopOperandFacts(q);
    ShiftLevel(q, c);
    ShiftTight(Top(ss), q);
    TopProduct(neg, ss, cs, vs);
    assert EntryOk(neg, Top(ss), q, c, v);
    assert ss[..|ss|] == ss && cs[..|cs|] == cs && vs[..|vs|] == vs;
    hide EntryOk, Edge, Stos, LevelOk, Pact, Defact, IsProduct, StackOk, Tight;
    LengthsAgree(neg, ss, cs, vs);
    PopPush(neg, ss, cs, vs, 0, q, c, v);
  }

  lemma LengthsAgree<D>(neg: D -> D, ss: seq<int>, cs: seq<Parse<D>>, vs: seq<Expr<D>>)
    requires StackOk(neg, ss, cs, vs)
    ensures |ss| == |cs| + 1 == |vs| + 1
  {}

  lemma ShiftLevel<D>(q: int, c: Parse<D>)
    requires 0 < q < NSTATES && Stos(q) < NTOKENS && c.Tok? && c.t.kind == Stos(q)
    ensures LevelOk(q, c)
  {}

  /** What `*`, `/` and `%` may be shifted on. */
  lemma ShiftTight(p: int, q: int)
    requires Edge(p, q)
    ensures 36 <= q <= 38 ==> AtSum(p) || AtProduct(p)
  {}

  lemma TopProduct<D>(neg: D -> D, ss: seq<int>, cs: seq<Parse<D>>, vs: seq<Expr<D>>)
    requires StackOk(neg, ss, cs, vs)
    ensures ss != [] && (AtProduct(Top(ss)) ==> cs != [] && IsProduct(cs[|cs| - 1]))
  {
    if cs != [] {
      EntryAt(neg, ss, cs, vs, |cs| - 1);
    }
  }

  /** How far a symbol is from the top of the grammar. */
  function Rank(symbol: int): nat {
    if symbol == RULE then 1 else if symbol == SUBRULE then 2 else if symbol == TERM then 3
    else if symbol == PRIMARY || symbol == AGGR || symbol == REGEX_RULE then 4
    else if symbol == LINE then 0 else 5
  }

  /** What the driver has left to do: tokens to shift, entries and symbols to reduce. */
  function Remaining(input: nat, pos: nat, yychar: int, ss: seq<int>): int
    requires ss != []
  {
    12 * (input - pos + if yychar == EMPTY then 0 else 1) + 6 * |ss| + Rank(Stos(Top(ss)))
  }

  lemma RankFalls(q: int)
    requires 0 <= q < NSTATES && q != FINAL && Defact(q) != 0
    ensures var r := Defact(q); -6 * (Len(r) - 1) + Rank(Lhs(r)) < Rank(Stos(q))
  {}

  /** A stack after popping n entries and pushing one. */
  function Swap<T>(s: seq<T>, n: nat, x: T): seq<T>
    requires n <= |s|
  {
    s[..|s| - n] + [x]
  }

  lemma ReduceStack<D>(neg: D -> D, ss: seq<int>, cs: seq<Parse<D>>, vs: seq<Expr<D>>, n: nat, r: int, c: Parse<D>,
      v: Expr<D>)
    requires StackOk(neg, ss, cs, vs) && Tight(ss, cs) && 1 <= n <= 3 && n <= |cs|
    requires Reduced(neg, ss[|cs| - n], r, c, v, TailText(cs, n))
    ensures var q := Goto(ss[|cs| - n], Lhs(r));
      && StackOk(neg, Swap(ss, n, q), Swap(cs, n, c), Swap(vs, n, v)) && Tight(Swap(ss, n, q), Swap(cs, n, c))
      && FlatText(Swap(cs, n, c)) == FlatText(cs)
  {
    var q := Goto(ss[|cs| - n], Lhs(r));
    LengthsAgree(neg, ss, cs, vs);
    ReducedFacts(neg, ss[|cs| - n], r, c, v, TailText(cs, n));
    TopOperandFacts(q);
    FlatTail(cs, n);
    hide EntryOk, Edge, Stos, LevelOk, Pact, Defact, IsProduct, StackOk, Tight, Lhs, Goto, TailText, FlatText, Reduced;
    PopPush(neg, ss, cs, vs, n, q, c, v);
  }

  /** Reducing by the default rule of the top state. */
  lemma ReduceStep<D>(neg: D -> D, input: seq<Token<D>>, ss: seq<int>, cs: seq<Parse<D>>, vs: seq<Expr<D>>,
      yychar: int, yylval: Expr<D>, pos: nat)
    requires Inv(neg, input, ss, cs, vs, yychar, yylval, pos) && Top(ss) != FINAL && Defact(Top(ss)) != 0
    requires Pact(Top(ss)) != PACT_NINF ==> 0 <= yychar < NTOKENS && Shift(Top(ss), yychar) == 0
    ensures Ripe(neg, ss, cs, vs, yylval) && |ss| == |cs| + 1 == |vs| + 1
    ensures var r := Defact(Top(ss)); var n := Len(r);
      var q, c, v := Goto(ss[|cs| - n], Lhs(r)), Build(r, cs[|cs| - n..]), Action(neg, r, vs[|cs| - n..], yylval);
      && Inv(neg, input, Swap(ss, n, q), Swap(cs, n, c), Swap(vs, n, v), yychar, yylval, pos)
      && Remaining(|input|, pos, yychar, Swap(ss, n, q)) < Remaining(|input|, pos, yychar, ss)
  {
    hide EntryOk, Edge, Stos, Shift, LevelOk, Pact, Defact, IsProduct, StackOk, Tight, Build, Action, Lhs, Len, Goto,
      TailText, FlatText, Reduced, AtSum, AtProduct, TopOperand, Remaining;
    TopInRange(neg, ss, cs, vs);
    var q0 := Top(ss);
    var r := Defact(q0);
    var n := Len(r);
    ReduceMatches(neg, ss, cs, vs, yylval);
    var q, c, v := Goto(ss[|cs| - n], Lhs(r)), Build(r, cs[|cs| - n..]), Action(neg, r, vs[|cs| - n..], yylval);
    ReducedFacts(neg, ss[|cs| - n], r, c, v, TailText(cs, n));
    ReduceStack(neg, ss, cs, vs, n, r, c, v);
    hide Ripe;
    LookaheadOf(q0, yychar);
    TopOperandFacts(q0);
    TopOperandFacts(q);
    ReduceProgress(|input|, pos, yychar, ss, n, q);
    SwapTop(ss, n, q);
    SwapTop(cs, n, c);
    hide Swap;
  }

  lemma SwapTop<T>(s: seq<T>, n: nat, x: T)
    requires n <= |s|
    ensures |Swap(s, n, x)| == |s| - n + 1 && Swap(s, n, x)[|s| - n] == x
  {}

  lemma ReduceProgress(input: nat, pos: nat, yychar: int, ss: seq<int>, n: nat, q: int)
    requires ss != [] && 0 <= Top(ss) < NSTATES && Top(ss) != FINAL && Defact(Top(ss)) != 0
    requires n == Len(Defact(Top(ss))) <= |ss| && Stos(q) == Lhs(Defact(Top(ss)))
    ensures Remaining(input, pos, yychar, Swap(ss, n, q)) < Remaining(input, pos, yychar, ss)
  {
    RankFalls(Top(ss));
    hide Stos, Defact, Lhs, Len, Rank;
    SwapTop(ss, n, q);
  }

  lemma ReducedFacts<D>(neg: D -> D, p: int, r: int, c: Parse<D>, v: Expr<D>, text: seq<Token<D>>)
    requires Reduced(neg, p, r, c, v, text)
    ensures var q := Goto(p, Lhs(r));
      && EntryOk(neg, p, q, c, v) && Text(c) == text && 0 < q < NSTATES && Stos(q) == Lhs(r) > NTOKENS
      && (AtSum(q) ==> IsProduct(c) || r == 17 || r == 18)
  {}

  /** After plus and minus a reduction happens only with another lookahead than `*`, `/` and `%`. */
  lemma LookaheadOf(q: int, yychar: int)
    requires 0 <= q < NSTATES && (Pact(q) != PACT_NINF ==> 0 <= yychar < NTOKENS && Shift(q, yychar) == 0)
    ensures AtProduct(q) ==> 0 <= yychar && !(34 <= yychar <= 36)
  {
    if AtProduct(q) {
      ShiftExpect(q, yychar);
      hide Shift;
    }
  }

  /** In the final state the stack is one line, and all tokens have been read. */
  lemma AtFinal<D>(neg: D -> D, input: seq<Token<D>>, ss: seq<int>, cs: seq<Parse<D>>, vs: seq<Expr<D>>, yychar: int,
      yylval: Expr<D>, pos: nat)
    requires Inv(neg, input, ss, cs, vs, yychar, yylval, pos) && Top(ss) == FINAL
    ensures |cs| == 2 == |vs| == |ss| - 1 && ss[1] == 12 && cs[0].Line? && IsRule(cs[0].inner)
      && cs[0].semi.kind == SEMI
    ensures Text(cs[0]) == input[..|input| - 1] && vs[0] == TreeOf(neg, cs[0])
  {
    StatesInRange(neg, ss, cs, vs);
    var m := |cs|;
    assert m > 0;
    hide IsRule, IsProduct, Tight, Pact, CheckAt, TableAt, Defact, Lhs, Len, StackOk;
    LengthsAgree(neg, ss, cs, vs);
    EntryAt(neg, ss, cs, vs, m - 1);
    EntryAt(neg, ss, cs, vs, m - 2);
    FlatOne(cs, 2);
    FlatOne(cs, 1);
    hide Text, Edge, LevelOk, Stos;
    var k := if yychar == EMPTY then pos else pos - 1;
    var t := cs[1].t;
    TextOfTok(cs[1]);
    assert FlatText(cs) == Text(cs[0]) + [t] && input[..k][k - 1] == t;
    assert input[..|input|] == input;
  }

  lemma TextOfTok<D>(c: Parse<D>)
    requires c.Tok?
    ensures Text(c) == [c.t]
  {}

  /** The tree stored by the action of the first rule stays with the line on the stack. */
  ghost predicate Stored<D>(ss: seq<int>, vs: seq<Expr<D>>, calcTree: Option<Expr<D>>) {
    |ss| >= 2 && |vs| >= 1 && ss[1] == 12 ==> calcTree == Some(vs[0])
  }

  lemma StoredKept<D>(neg: D -> D, ss: seq<int>, cs: seq<Parse<D>>, vs: seq<Expr<D>>, yylval: Expr<D>,
      calcTree: Option<Expr<D>>)
    requires ss != [] && Ripe(neg, ss, cs, vs, yylval) && Stored(ss, vs, calcTree)
    ensures var r := Defact(Top(ss)); var n := Len(r);
      var q, v := Goto(ss[|cs| - n], Lhs(r)), Action(neg, r, vs[|cs| - n..], yylval);
      Stored(Swap(ss, n, q), Swap(vs, n, v), if r == 2 then Some(vs[|vs| - 2]) else calcTree)
  {
    hide Pact, CheckAt, TableAt, Defact, Goto, Reduced, Action, Len, Lhs, Stos, Build, TailText;
    var r := Defact(Top(ss));
    var n := Len(r);
    var q, v := Goto(ss[|cs| - n], Lhs(r)), Action(neg, r, vs[|cs| - n..], yylval);
    ReducedFacts(neg, ss[|cs| - n], r, Build(r, cs[|cs| - n..]), v, TailText(cs, n));
    hide EntryOk;
    LineRule(r, q);
    SwapTop(ss, n, q);
    SwapTop(vs, n, v);
    if r == 2 {
      LineAction(neg, vs[|cs| - n..], yylval);
    }
  }

  lemma LineAction<D>(neg: D -> D, args: seq<Expr<D>>, yylval: Expr<D>)
    requires |args| == Len(2)
    ensures |args| == 2 && Action(neg, 2, args, yylval) == args[0]
  {}

  lemma LineRule(r: int, q: int)
    requires 2 <= r <= 36 && Stos(q) == Lhs(r)
    ensures q == 12 <==> r == 2
    ensures r == 2 ==> Len(r) == 2
  {}

  lemma Started<D>(neg: D -> D, input: seq<Token<D>>, yylval: Expr<D>)
    requires InputOk(input)
    ensures Inv(neg, input, [0], [], [], EMPTY, yylval, 0)
  {}

  /** A sentence: a rule, by its levels, and a semicolon. */
  ghost predicate Sentence<D(!new)>(tokens: seq<Token<D>>) {
    exists c: Parse<D>, semi: Token<D> :: IsRule(c) && semi.kind == SEMI && tokens == Text(c) + [semi]
  }

  /** The stacks of the driver as the automaton's. */
  function ToStack<D>(ss: seq<int>, cs: seq<Parse<D>>): (s: Stack<D>)
    requires |ss| == |cs| + 1
    ensures ss[0] == 0 ==> StateOf(s) == Top(ss)
  {
    if cs == [] then Start
    else Push(ToStack(ss[..|ss| - 1], cs[..|cs| - 1]), ss[|ss| - 1], cs[|cs| - 1])
  }

  lemma {:induction false} PopStack<D>(ss: seq<int>, cs: seq<Parse<D>>, n: nat)
    requires |ss| == |cs| + 1 && n <= |cs|
    ensures Pop(ToStack(ss, cs), n) == Some(Popped(ToStack(ss[..|ss| - n], cs[..|cs| - n]), cs[|cs| - n..]))
    decreases n
  {
    if n == 0 {
      assert ss[..|ss|] == ss && cs[..|cs|] == cs;
    } else {
      var ss', cs' := ss[..|ss| - 1], cs[..|cs| - 1];
      PopStack(ss', cs', n - 1);
      PopOver(ToStack(ss', cs'), ss[|ss| - 1], cs[|cs| - 1], n);
      Slices(ss, n);
      Slices(cs, n);
      hide Pop;
    }
  }

  lemma Slices<T>(s: seq<T>, n: nat)
    requires 1 <= n <= |s|
    ensures s[..|s| - 1][..|s| - n] == s[..|s| - n]
    ensures s[..|s| - 1][|s| - n..] + [s[|s| - 1]] == s[|s| - n..]
  {}

  lemma PopOver<D>(s: Stack<D>, q: int, c: Parse<D>, n: nat)
    requires n > 0
    ensures Pop(Push(s, q, c), n) == match Pop(s, n - 1)
      case None => None
      case Some(p) => Some(Popped(p.below, p.parses + [c]))
  {}

  lemma PushStack<D>(ss: seq<int>, cs: seq<Parse<D>>, q: int, c: Parse<D>)
    requires |ss| == |cs| + 1
    ensures ToStack(ss + [q], cs + [c]) == Push(ToStack(ss, cs), q, c)
  {
    assert (ss + [q])[..|ss|] == ss && (cs + [c])[..|cs|] == cs;
  }

  /** The driver after n of its steps is where the automaton is after n steps. */
  ghost predicate OnTrack<D>(k: seq<Token<D>>, ss: seq<int>, cs: seq<Parse<D>>, yychar: int, pos: nat, n: nat) {
    && (yychar == EMPTY || 0 < pos <= |k|) && |ss| == |cs| + 1 && ss[0] == 0
    && (yychar != EMPTY ==> k[pos - 1].kind == yychar)
    && Steps(k, Config(Start, 0), n) == Some(Config(ToStack(ss, cs), if yychar == EMPTY then pos else pos - 1))
  }

  lemma TrackShift<D>(k: seq<Token<D>>, ss: seq<int>, cs: seq<Parse<D>>, yychar: int, pos: nat, n: nat, q: int)
    requires ss != [] && OnTrack(k, ss, cs, yychar, pos, n) && yychar != EMPTY && 0 < pos <= |k|
    requires Top(ss) != FINAL && Pact(Top(ss)) != PACT_NINF && q == Shift(Top(ss), yychar) != 0
    ensures OnTrack(k, ss + [q], cs + [Tok(k[pos - 1])], EMPTY, pos, n + 1)
  {
    var c := Config(ToStack(ss, cs), pos - 1);
    var t := Tok(k[pos - 1]);
    PushStack(ss, cs, q, t);
    hide Pact, Shift, ToStack, Defact;
    assert Next(k, c) == Some(Config(ToStack(ss + [q], cs + [t]), pos));
    hide Next;
    OneStep(k, n, c);
  }

  lemma OneStep<D>(k: seq<Token<D>>, n: nat, c: Config<D>)
    requires Steps(k, Config(Start, 0), n) == Some(c) && Next(k, c).Some?
    ensures Steps(k, Config(Start, 0), n + 1) == Next(k, c)
  {
    StepsAdd(k, Config(Start, 0), c, n, 1);
    hide Next;
    assert Steps(k, Next(k, c).value, 0) == Next(k, c);
  }

  lemma TrackReduce<D>(k: seq<Token<D>>, ss: seq<int>, cs: seq<Parse<D>>, yychar: int, pos: nat, n: nat)
    requires ss != [] && OnTrack(k, ss, cs, yychar, pos, n) && pos <= |k|
    requires Top(ss) != FINAL && 2 <= Defact(Top(ss)) <= 36 && 1 <= Len(Defact(Top(ss))) <= |cs|
    requires Pact(Top(ss)) != PACT_NINF ==> yychar != EMPTY && Shift(Top(ss), yychar) == 0
    ensures var r := Defact(Top(ss)); var m := Len(r);
      OnTrack(k, Swap(ss, m, Goto(ss[|cs| - m], Lhs(r))), Swap(cs, m, Build(r, cs[|cs| - m..])), yychar, pos, n + 1)
  {
    hide Shift, Pact, Defact, Len, Lhs, Goto, Build;
    var r := Defact(Top(ss));
    var m := Len(r);
    var c := Config(ToStack(ss, cs), if yychar == EMPTY then pos else pos - 1);
    var below, rest := ss[..|ss| - m], cs[..|cs| - m];
    PopStack(ss, cs, m);
    PushStack(below, rest, Goto(ss[|cs| - m], Lhs(r)), Build(r, cs[|cs| - m..]));
    assert Top(below) == ss[|cs| - m] && below[0] == ss[0];
    assert Next(k, c) == ReduceBy(c, r);
    hide Next, ToStack;
    OneStep(k, n, c);
  }

  /** Where the driver finds an error the automaton has no step, so no sentence leads there. */
  lemma NoSentence<D(!new)>(tokens: seq<Token<D>>, end: Token<D>, ss: seq<int>, cs: seq<Parse<D>>, yychar: int,
      pos: nat, n: nat)
    requires end.kind == END && ss != [] && OnTrack(Input(tokens, end), ss, cs, yychar, pos, n)
    requires Top(ss) != FINAL && Defact(Top(ss)) == 0 && pos <= |Input(tokens, end)|
    requires Pact(Top(ss)) != PACT_NINF ==> yychar != EMPTY && Shift(Top(ss), yychar) == 0
    ensures !Sentence(tokens)
  {
    var k := Input(tokens, end);
    var here := Config(ToStack(ss, cs), if yychar == EMPTY then pos else pos - 1);
    hide IsRule, Text, At, Shift, Pact, Defact, Len, Lhs, Goto, Build, ToStack;
    if Sentence(tokens) {
      var c: Parse<D>, semi: Token<D> :| IsRule(c) && semi.kind == SEMI && tokens == Text(c) + [semi];
      SentenceAt(k, c, semi, end);
      SentenceRuns(k, c);
      var there := Config(Final(c, semi, end), |k|);
      assert Next(k, here) == None;
      FinalStops(k, c, semi, end);
      hide Next;
      DeadEnd(k, n, here, there);
    }
  }

  lemma SentenceAt<D>(k: seq<Token<D>>, c: Parse<D>, semi: Token<D>, end: Token<D>)
    requires k == Input(Text(c) + [semi], end)
    ensures At(k, 0, c) && |k| == |Text(c)| + 2 && k[|k| - 2] == semi && k[|k| - 1] == end
  {
    hide Text;
  }

  lemma StartsOnTrack<D>(k: seq<Token<D>>)
    ensures OnTrack(k, [0], [], EMPTY, 0, 0)
  {}

  lemma TrackLook<D>(k: seq<Token<D>>, ss: seq<int>, cs: seq<Parse<D>>, pos: nat, n: nat)
    requires OnTrack(k, ss, cs, EMPTY, pos, n) && pos < |k| && k[pos].kind != EMPTY
    ensures OnTrack(k, ss, cs, k[pos].kind, pos + 1, n)
  {}

  /** The lookahead is the last token read. */
  lemma LookaheadRange<D>(neg: D -> D, input: seq<Token<D>>, ss: seq<int>, cs: seq<Parse<D>>, vs: seq<Expr<D>>,
      yychar: int, yylval: Expr<D>, pos: nat)
    requires ss != [] && Inv(neg, input, ss, cs, vs, yychar, yylval, pos)
    ensures |ss| == |cs| + 1 == |vs| + 1 && 0 <= Top(ss) < NSTATES && pos <= |input|
    ensures yychar != EMPTY ==> 0 <= yychar < NTOKENS && 0 < pos && input[pos - 1].kind == yychar
  {
    StatesInRange(neg, ss, cs, vs);
  }

  /** yyreduce: the action of the rule, the stacks popped, and the state to go to. */
  method Reduce<D>(neg: D -> D, ghost input: seq<Token<D>>, ss: seq<int>, ghost cs: seq<Parse<D>>, vs: seq<Expr<D>>,
      yychar: int, yylval: Expr<D>, ghost pos: nat, calcTree: Option<Expr<D>>, ghost k: nat)
    returns (ss': seq<int>, ghost cs': seq<Parse<D>>, vs': seq<Expr<D>>, calcTree': Option<Expr<D>>)
    requires ss != [] && Inv(neg, input, ss, cs, vs, yychar, yylval, pos) && Stored(ss, vs, calcTree)
    requires Top(ss) != FINAL && 0 <= Top(ss) < NSTATES && Defact(Top(ss)) != 0
    requires Pact(Top(ss)) != PACT_NINF ==> 0 <= yychar < NTOKENS && Shift(Top(ss), yychar) == 0
    requires OnTrack(input, ss, cs, yychar, pos, k)
    ensures OnTrack(input, ss', cs', yychar, pos, k + 1)
    ensures ss' != [] && Inv(neg, input, ss', cs', vs', yychar, yylval, pos) && Stored(ss', vs', calcTree')
    ensures Remaining(|input|, pos, yychar, ss') < Remaining(|input|, pos, yychar, ss)
  {
    hide Inv, Stored, Pact, Defact, Goto, Stos, Lhs, Len, Action, Build, Remaining, Shift, Swap, OnTrack, Operator;
    ReduceFacts(neg, input, ss, cs, vs, yychar, yylval, pos, calcTree, k);
    var r := Defact(Top(ss));
    var n := Len(r);
    calcTree' := if r == 2 then Some(vs[|vs| - 2]) else calcTree;
    var yyval := Action(neg, r, vs[|vs| - n..], yylval);
    var q := Goto(ss[|ss| - 1 - n], Lhs(r));
    ss', cs', vs' := Swap(ss, n, q), Swap(cs, n, Build(r, cs[|cs| - n..])), Swap(vs, n, yyval);
  }

  lemma ReduceFacts<D>(neg: D -> D, input: seq<Token<D>>, ss: seq<int>, cs: seq<Parse<D>>, vs: seq<Expr<D>>,
      yychar: int, yylval: Expr<D>, pos: nat, calcTree: Option<Expr<D>>, k: nat)
    requires ss != [] && Inv(neg, input, ss, cs, vs, yychar, yylval, pos) && Stored(ss, vs, calcTree)
    requires Top(ss) != FINAL && 0 <= Top(ss) < NSTATES && Defact(Top(ss)) != 0
    requires Pact(Top(ss)) != PACT_NINF ==> 0 <= yychar < NTOKENS && Shift(Top(ss), yychar) == 0
    requires OnTrack(input, ss, cs, yychar, pos, k)
    ensures var r := Defact(Top(ss));
      2 <= r <= 36 && 1 <= Len(r) <= |cs| && |ss| == |cs| + 1 == |vs| + 1 && (r == 2 ==> |vs| == 2)
    ensures var r := Defact(Top(ss)); var n := Len(r);
      var q, c, v := Goto(ss[|ss| - 1 - n], Lhs(r)), Build(r, cs[|cs| - n..]), Action(neg, r, vs[|vs| - n..], yylval);
      && Inv(neg, input, Swap(ss, n, q), Swap(cs, n, c), Swap(vs, n, v), yychar, yylval, pos)
      && Remaining(|input|, pos, yychar, Swap(ss, n, q)) < Remaining(|input|, pos, yychar, ss)
      && Stored(Swap(ss, n, q), Swap(vs, n, v), if r == 2 then Some(vs[|vs| - 2]) else calcTree)
      && OnTrack(input, Swap(ss, n, q), Swap(cs, n, c), yychar, pos, k + 1) && Swap(ss, n, q) != []
  {
    hide Inv, Ripe, Stored, Pact, CheckAt, TableAt, Defact, Goto, Stos, Lhs, Len, Action, Build, Remaining, Shift,
      OnTrack;
    LookaheadRange(neg, input, ss, cs, vs, yychar, yylval, pos);
    ReduceStep(neg, input, ss, cs, vs, yychar, yylval, pos);
    StoredKept(neg, ss, cs, vs, yylval, calcTree);
    RipeFacts(neg, ss, cs, vs, yylval);
    TrackReduce(input, ss, cs, yychar, pos, k);
    hide Swap;
  }

  /** Look the lookahead up in the row of the state: the state to shift to, or 0 for the default. */
  method Consult(p: int, yychar: int) returns (state: int)
    requires 0 <= p < NSTATES && 0 <= yychar < NTOKENS && Pact(p) != PACT_NINF
    ensures state == Shift(p, yychar) && state != 12
  {
    hide Pact, Shift, CheckAt, TableAt;
    ShiftIs(p, yychar);
    var yyn := Pact(p) + yychar;
    if yyn < 0 || LAST < yyn || CheckAt(yyn) != yychar {
      return 0;
    }
    return TableAt(yyn);
  }

  /** Push the lookahead and the state it leads to. */
  method ShiftToken<D>(neg: D -> D, ghost input: seq<Token<D>>, ss: seq<int>, ghost cs: seq<Parse<D>>, vs: seq<Expr<D>>,
      ghost yychar: int, yylval: Expr<D>, ghost pos: nat, ghost calcTree: Option<Expr<D>>, state: int, ghost k: nat)
    returns (ss': seq<int>, ghost cs': seq<Parse<D>>, vs': seq<Expr<D>>)
    requires ss != [] && Inv(neg, input, ss, cs, vs, yychar, yylval, pos) && Stored(ss, vs, calcTree)
      && |ss| == |vs| + 1
    requires 0 <= yychar < NTOKENS && 0 < pos <= |input| && state == Shift(Top(ss), yychar) != 0 && state != 12
    requires Top(ss) != FINAL && Pact(Top(ss)) != PACT_NINF && OnTrack(input, ss, cs, yychar, pos, k)
    ensures OnTrack(input, ss', cs', EMPTY, pos, k + 1)
    ensures ss' != [] && Inv(neg, input, ss', cs', vs', EMPTY, yylval, pos) && Stored(ss', vs', calcTree)
    ensures Remaining(|input|, pos, EMPTY, ss') < Remaining(|input|, pos, yychar, ss)
  {
    hide Inv, Stored, Shift, Remaining, OnTrack, Pact;
    LookaheadRange(neg, input, ss, cs, vs, yychar, yylval, pos);
    TrackShift(input, ss, cs, yychar, pos, k, state);
    ShiftStep(neg, input, ss, cs, vs, yychar, yylval, pos);
    ShiftProgress(|input|, pos, yychar, ss, state);
    StoredShift(ss, vs, calcTree, state, yylval);
    ss', cs', vs' := ss + [state], cs + [Tok(input[pos - 1])], vs + [yylval];
  }

  /** The lookahead, read if there is none yet. */
  method Lookahead<D>(neg: D -> D, input: seq<Token<D>>, ss: seq<int>, ghost cs: seq<Parse<D>>,
      ghost vs: seq<Expr<D>>, yychar: int, yylval: Expr<D>, pos: nat, ghost k: nat)
    returns (yychar': int, yylval': Expr<D>, pos': nat)
    requires ss != [] && Inv(neg, input, ss, cs, vs, yychar, yylval, pos) && Top(ss) != FINAL
      && Pact(Top(ss)) != PACT_NINF
    requires OnTrack(input, ss, cs, yychar, pos, k)
    ensures OnTrack(input, ss, cs, yychar', pos', k)
    ensures Inv(neg, input, ss, cs, vs, yychar', yylval', pos') && yychar' != EMPTY
    ensures Remaining(|input|, pos', yychar', ss) == Remaining(|input|, pos, yychar, ss)
  {
    yychar', yylval', pos' := yychar, yylval, pos;
    if yychar == EMPTY {
      hide Inv, OnTrack, Pact, Stos;
      LexStep(neg, input, ss, cs, vs, yylval, pos);
      TrackLook(input, ss, cs, pos, k);
      yychar' := input[pos].kind;
      if OperandKind(yychar') {
        yylval' := input[pos].leaf;
      }
      pos' := pos + 1;
    }
  }

  lemma Starting<D>(neg: D -> D, tokens: seq<Token<D>>, end: Token<D>, yylval: Expr<D>)
    requires end.kind == END && forall i :: 0 <= i < |tokens| ==> 2 <= tokens[i].kind < NTOKENS
    ensures Inv(neg, Input(tokens, end), [0], [], [], EMPTY, yylval, 0) && Stored<D>([0], [], None)
    ensures OnTrack(Input(tokens, end), [0], [], EMPTY, 0, 0)
  {
    Started(neg, Input(tokens, end), yylval);
    StartsOnTrack(Input(tokens, end));
  }

  /** yyparse accepts exactly the sentences, short of a stack of YYMAXDEPTH entries, and the tree
      it stores is the tree of the one parse in which every operator binds as tightly as its level.
      That tree evaluates to what the numbers of the tokens say. */
  method YyParse<D(!new)>(neg: D -> D, tokens: seq<Token<D>>, end: Token<D>)
    returns (result: Result<D>, ghost parse: Parse<D>)
    requires end.kind == END && forall i :: 0 <= i < |tokens| ==> 2 <= tokens[i].kind < NTOKENS
    ensures result.Accepted? ==> parse.Line? && IsRule(parse.inner) && parse.semi.kind == SEMI
    ensures result.Accepted? ==> tokens == Text(parse.inner) + [parse.semi] && result.tree == TreeOf(neg, parse.inner)
    ensures result.Accepted? ==> forall c: Parse<D> :: IsRule(c) && Text(c) == Text(parse.inner) ==> c == parse.inner
    ensures result.Accepted? && AllDelivered(tokens) ==>
      Shape(result.tree) && forall env: Env<D> :: Agrees(Reads(neg, env, parse.inner), Eval(result.tree, env))
    ensures result == SyntaxError ==> !Sentence(tokens)
    ensures result == Exhausted ==> |tokens| >= 9998
    ensures |tokens| < 9998 ==> (result.Accepted? <==> Sentence(tokens))
  {
    hide Input, Inv, Stored, Pact, CheckAt, TableAt, Defact, Text, TreeOf, IsRule, Remaining, Shift, OnTrack,
      Sentence, OperandKind, Reads, Eval, Shape, Agrees, AllDelivered;
    Starting(neg, tokens, end, end.leaf);
    var input := Input(tokens, end);
    ghost var n: nat := 0;
    var ss: seq<int>, vs: seq<Expr<D>> := [0], [];
    ghost var cs: seq<Parse<D>> := [];
    var yychar, yylval, pos: nat := EMPTY, end.leaf, 0;
    var calcTree: Option<Expr<D>> := None;
    parse := Tok(end);
    while true
      invariant ss != [] && Inv(neg, input, ss, cs, vs, yychar, yylval, pos) && Stored(ss, vs, calcTree)
      invariant OnTrack(input, ss, cs, yychar, pos, n)
      decreases Remaining(|input|, pos, yychar, ss)
    {
      if |ss| >= YYMAXDEPTH {
        ManyTokens(neg, tokens, end, ss, cs, vs, yychar, yylval, pos);
        return Exhausted, parse;
      }
      if Top(ss) == FINAL {
        Accepting(neg, tokens, end, ss, cs, vs, yychar, yylval, pos, calcTree);
        OnlyParse(cs[0].inner);
        StoredReads(neg, cs[0].inner, cs[0].semi);
        SentenceFound(tokens, cs[0].inner, cs[0].semi);
        return Accepted(calcTree.value), cs[0];
      }
      LookaheadRange(neg, input, ss, cs, vs, yychar, yylval, pos);
      RemainingNat(|input|, pos, yychar, ss);
      var state := 0;
      if Pact(Top(ss)) != PACT_NINF {
        yychar, yylval, pos := Lookahead(neg, input, ss, cs, vs, yychar, yylval, pos, n);
        LookaheadRange(neg, input, ss, cs, vs, yychar, yylval, pos);
        state := Consult(Top(ss), yychar);
      }
      if state != 0 {
        ss, cs, vs := ShiftToken(neg, input, ss, cs, vs, yychar, yylval, pos, calcTree, state, n);
        yychar, n := EMPTY, n + 1;
      } else {
        if Defact(Top(ss)) == 0 {
          NoSentence(tokens, end, ss, cs, yychar, pos, n);
          return SyntaxError, parse;
        }
        ss, cs, vs, calcTree := Reduce(neg, input, ss, cs, vs, yychar, yylval, pos, calcTree, n);
        n := n + 1;
      }
    }
  }

  lemma OnlyParse<D(!new)>(c: Parse<D>)
    requires IsRule(c)
    ensures forall d: Parse<D> :: IsRule(d) && Text(d) == Text(c) ==> d == c
  {
    hide IsRule, Text;
    forall d: Parse<D> | IsRule(d) && Text(d) == Text(c) ensures d == c {
      Unambiguous(d, c);
    }
  }

  lemma SentenceFound<D(!new)>(tokens: seq<Token<D>>, c: Parse<D>, semi: Token<D>)
    requires IsRule(c) && semi.kind == SEMI && tokens == Text(c) + [semi]
    ensures Sentence(tokens)
  {
    hide IsRule, Text;
  }

  lemma {:induction false} TextSome<D>(c: Parse<D>)
    ensures |Text(c)| >= 1
  {
    match c {
      case Binary(left, _, _) => TextSome(left);
      case _ =>
    }
  }

  /** Every entry of the stack stands for at least one token. */
  lemma {:induction false} FlatLength<D>(cs: seq<Parse<D>>, k: nat)
    requires k <= |cs|
    ensures |FlatUpTo(cs, k)| >= k
  {
    if k > 0 {
      FlatLength(cs, k - 1);
      TextSome(cs[k - 1]);
      hide Text;
    }
  }

  lemma ManyTokens<D>(neg: D -> D, tokens: seq<Token<D>>, end: Token<D>, ss: seq<int>, cs: seq<Parse<D>>,
      vs: seq<Expr<D>>, yychar: int, yylval: Expr<D>, pos: nat)
    requires Inv(neg, Input(tokens, end), ss, cs, vs, yychar, yylval, pos) && |ss| >= YYMAXDEPTH
    ensures |tokens| >= 9998
  {
    LengthsAgree(neg, ss, cs, vs);
    FlatLength(cs, |cs|);
    hide StackOk, Tight, FlatUpTo, IsProduct;
  }

  /** The tree of a rule evaluates to what its tokens say, whatever the callbacks deliver. */
  lemma StoredReads<D(!new)>(neg: D -> D, c: Parse<D>, semi: Token<D>)
    requires IsRule(c)
    ensures AllDelivered(Text(c) + [semi]) ==>
      Shape(TreeOf(neg, c)) && forall env: Env<D> :: Agrees(Reads(neg, env, c), Eval(TreeOf(neg, c), env))
  {
    hide IsRule, Text, TreeOf, Reads, Eval, Shape, Agrees, AllDelivered;
    if AllDelivered(Text(c) + [semi]) {
      DeliveredParts(Text(c), [semi]);
      forall env: Env<D> ensures Shape(TreeOf(neg, c)) && Agrees(Reads(neg, env, c), Eval(TreeOf(neg, c), env)) {
        TreeReads(neg, env, c);
      }
      ShapeOfTree(neg, c);
    }
  }

  lemma ShapeOfTree<D>(neg: D -> D, c: Parse<D>)
    requires IsRule(c) && AllDelivered(Text(c))
    ensures Shape(TreeOf(neg, c))
  {
    RuleIsComplete(c);
    assert Scanned(Text(c));
    LeavesAreOperands(neg, c);
  }

  lemma RemainingNat(input: nat, pos: nat, yychar: int, ss: seq<int>)
    requires ss != [] && pos <= input
    ensures Remaining(input, pos, yychar, ss) >= 0
  {}

  /** Looking the token up in the table is asking for the shift. */
  lemma ShiftIs(p: int, t: int)
    requires 0 <= p < NSTATES && 0 <= t < NTOKENS && Pact(p) != PACT_NINF
    ensures var n := Pact(p) + t;
      && (0 <= n <= LAST && CheckAt(n) == t <==> Shift(p, t) != 0)
      && (Shift(p, t) != 0 ==> Shift(p, t) == TableAt(n) && 0 < TableAt(n) < NSTATES && TableAt(n) != 12)
  {
    hide Expect;
    var n := Pact(p) + t;
    if 0 <= n <= LAST && CheckAt(n) == t {
      EntryIsState(n);
      ShiftEdge(p, t);
    }
  }

  lemma ShiftProgress(input: nat, pos: nat, yychar: int, ss: seq<int>, q: int)
    requires ss != [] && yychar != EMPTY
    ensures Remaining(input, pos, EMPTY, ss + [q]) < Remaining(input, pos, yychar, ss)
  {}

  lemma Accepting<D>(neg: D -> D, tokens: seq<Token<D>>, end: Token<D>, ss: seq<int>, cs: seq<Parse<D>>,
      vs: seq<Expr<D>>,
      yychar: int, yylval: Expr<D>, pos: nat, calcTree: Option<Expr<D>>)
    requires Inv(neg, Input(tokens, end), ss, cs, vs, yychar, yylval, pos) && Stored(ss, vs, calcTree)
      && Top(ss) == FINAL
    ensures cs != [] && cs[0].Line? && IsRule(cs[0].inner) && cs[0].semi.kind == SEMI
    ensures tokens == Text(cs[0].inner) + [cs[0].semi] && calcTree == Some(TreeOf(neg, cs[0].inner))
  {
    hide Inv, Stored, IsRule, Text, TreeOf;
    AtFinal(neg, Input(tokens, end), ss, cs, vs, yychar, yylval, pos);
    StoredIs(ss, vs, calcTree);
    LineParts(neg, cs[0]);
    assert Input(tokens, end)[..|tokens|] == tokens;
  }

  lemma StoredIs<D>(ss: seq<int>, vs: seq<Expr<D>>, calcTree: Option<Expr<D>>)
    requires Stored(ss, vs, calcTree) && |ss| >= 2 && |vs| >= 1 && ss[1] == 12
    ensures calcTree == Some(vs[0])
  {}

  lemma StoredShift<D>(ss: seq<int>, vs: seq<Expr<D>>, calcTree: Option<Expr<D>>, q: int, v: Expr<D>)
    requires Stored(ss, vs, calcTree) && |ss| == |vs| + 1 && q != 12
    ensures Stored(ss + [q], vs + [v], calcTree)
  {}

  lemma LineParts<D>(neg: D -> D, c: Parse<D>)
    requires c.Line?
    ensures Text(c) == Text(c.inner) + [c.semi] && TreeOf(neg, c) == TreeOf(neg, c.inner)
  {}

  lemma RipeFacts<D>(neg: D -> D, ss: seq<int>, cs: seq<Parse<D>>, vs: seq<Expr<D>>, yylval: Expr<D>)
    requires ss != [] && Ripe(neg, ss, cs, vs, yylval)
    ensures var r := Defact(Top(ss));
      2 <= r <= 36 && 1 <= Len(r) <= |cs| && |ss| == |cs| + 1 == |vs| + 1 && (r == 2 ==> |vs| == 2)
  {}

  /** The tree of a sentence: its leaves are exactly those its tokens stand for, and the evaluator
      can work on it. */
  lemma SentenceTree<D>(neg: D -> D, c: Parse<D>, semi: Token<D>)
    requires IsRule(c) && semi.kind == SEMI && Scanned(Text(c) + [semi])
    ensures Leaves(TreeOf(neg, c)) == ReadLeaves(neg, Text(c) + [semi], false, false) && Shape(TreeOf(neg, c))
  {
    assert Text(c) + [semi] == Text(c) + [semi] + [];
    ScannedParts(Text(c), semi, []);
    RuleIsComplete(c);
    LeavesRead(neg, c, [semi]);
    assert [semi][1..] == [];
  }
}
