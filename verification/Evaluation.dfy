/**
  Cached formulas on the values that inputs have at present: what src/mea_eval.c answers for
  the simplest formulas, and that an assignment shows in the next answer.
 */
module Evaluation {
  import opened Wrappers
  import opened Formula
  import opened StackMachine
  import opened Compiler
  import opened FormulaLaws
  import opened Precedence
  import opened FormulaCache
  import opened Operators
  import Inputs

  /** The text is of one variable, or of two with an operator between them. */
  lemma TextOfVariable(c: Chain<real, string>, x: string)
    ensures Text(c) == [TVar(x)] <==> c == Last(Variable(x))
  {
    TextParts(c);
    OperandTextIs(c.operand);
    if Text(c) == [TVar(x)] {
      assert |OperandText(c.operand)| == 1 && OperandText(c.operand)[0] == Text(c)[0];
    }
  }

  lemma TextOfTwo(c: Chain<real, string>, x: string, op: Op, y: string)
    ensures Text(c) == [TVar(x), TOp(op), TVar(y)] <==> c == Link(Variable(x), op, Last(Variable(y)))
  {
    TextParts(c);
    OperandTextIs(c.operand);
    var text := [TVar(x), TOp(op), TVar(y)];
    if Text(c) == text {
      OperandLeads(c);
      assert c.operand == Variable(x);
      assert c.Link?;
      assert text == [TVar(x)] + [TOp(c.op)] + Text(c.rest);
      assert text[1] == TOp(c.op) && text[2..] == Text(c.rest);
      TextOfVariable(c.rest, y);
    }
    if c == Link(Variable(x), op, Last(Variable(y))) {
      TextOfVariable(c.rest, y);
    }
  }

  lemma OperandLeads(c: Chain<real, string>)
    ensures |OperandText(c.operand)| > 0 && |Text(c)| > 0 && Text(c)[0] == OperandText(c.operand)[0]
  {
  }

  /** The number an input holds at present, if there is such an input and it holds one. */
  function NumberOf(s: State, x: string): Option<real> {
    if x in s.table && s.table[x] in s.nodes then
      match s.nodes[s.table[x]].entry.v
      case Float(v) => Some(v)
      case _ => None
    else None
  }

  lemma NamesLookup(m: Arithmetic, s: State, x: string)
    ensures NameMachine(m, s).lookup(x) == NumberOf(s, x)
  {
  }

  /** A cached lone variable answers the number its input holds at present, and fails where it holds none. */
  lemma VariableAnswer(lex: Lexer, m: Arithmetic, s: State, text: string, x: string)
    requires Coherent(lex, s) && text in s.cache && s.cache[text].Program? && lex(text) == [TVar(x)]
    requires IdFits(s, x)
    ensures Answer(m, s, text) == NumberOf(s, x)
  {
    hide *;
    NoMoreRequests(lex, s);
    MentionedIn(lex(text), s);
    CachedMeaning(lex, m, s, [], text);
    var c: Chain<real, string> :|
      && Text(c) == lex(text)
      && (OnePopSuffices(c, []) ==> Answer(m, s, text) == Outcome1(Eval(NameMachine(m, s), Reading(c))));
    TextOfVariable(c, x);
    NamesLookup(m, s, x);
    VariableReads(NameMachine(m, s), x);
  }

  lemma NoMoreRequests(lex: Lexer, s: State)
    ensures After(lex, s, []) == s && Runs(lex, s, [])
  {
  }

  lemma MentionedIn(ts: seq<Token<real>>, s: State)
    ensures forall x :: Mentions(ts, x) ==> TVar(x) in ts
  {
  }

  lemma VariableReads(m: Machine<real, string>, x: string)
    ensures
      var c: Chain<real, string> := Last(Variable(x));
      OnePopSuffices(c, []) && Outcome1(Eval(m, Reading(c))) == m.lookup(x)
  {
    var c: Chain<real, string> := Last(Variable(x));
    ReadingOfOperand(c.operand);
    assert Eval(m, Reading(c)) == Eval(m, Var(x));
  }

  /** The operation on two numbers, where there are two. */
  function Applied(apply: (Op, real, real) -> Option<real>, op: Op, a: Option<real>, b: Option<real>): Option<real> {
    if a.Some? && b.Some? then apply(op, a.value, b.value) else None
  }

  /**
    Two cached variables with an operator between them: the operation on the two numbers the
    inputs hold at present, the first on the left; it fails where either holds none or the
    operation does.
   */
  lemma TwoVariablesAnswer(lex: Lexer, m: Arithmetic, s: State, text: string, x: string, op: Op, y: string)
    requires Coherent(lex, s) && text in s.cache && s.cache[text].Program?
    requires lex(text) == [TVar(x), TOp(op), TVar(y)] && IdFits(s, x) && IdFits(s, y)
    ensures Answer(m, s, text) ==
      Applied(m.apply, op, NumberOf(s, x), NumberOf(s, y))
  {
    hide *;
    NoMoreRequests(lex, s);
    MentionedIn(lex(text), s);
    CachedMeaning(lex, m, s, [], text);
    var c: Chain<real, string> :|
      && Text(c) == lex(text)
      && (OnePopSuffices(c, []) ==> Answer(m, s, text) == Outcome1(Eval(NameMachine(m, s), Reading(c))));
    TextOfTwo(c, x, op, y);
    NamesLookup(m, s, x);
    NamesLookup(m, s, y);
    NamesApply(m, s);
    TwoRead(NameMachine(m, s), x, op, y);
  }

  lemma NamesApply(m: Arithmetic, s: State)
    ensures NameMachine(m, s).apply == m.apply
  {
  }

  lemma TwoEvaluated(m: Machine<real, string>, op: Op, l: Tree<real, string>, r: Tree<real, string>)
    ensures Outcome1(Eval(m, Bin(op, l, r))) ==
      Applied(m.apply, op, Outcome1(Eval(m, l)), Outcome1(Eval(m, r)))
  {
  }

  lemma TwoRead(m: Machine<real, string>, x: string, op: Op, y: string)
    ensures
      var c: Chain<real, string> := Link(Variable(x), op, Last(Variable(y)));
      && OnePopSuffices(c, [])
      && Outcome1(Eval(m, Reading(c))) ==
         Applied(m.apply, op, m.lookup(x), m.lookup(y))
  {
    var c: Chain<real, string> := Link(Variable(x), op, Last(Variable(y)));
    var a: Operand<real, string>, b: Operand<real, string> := Variable(x), Variable(y);
    assert OnePopSuffices(c.rest, Pending([], Binary(op)));
    JoinLast(a, op, Last(b));
    ReadingOfOperand(a);
    ReadingOfOperand(b);
    if op in ADDING {
      ReadingOfSum(Last(a), op, Last(b));
    } else {
      ReadingOfTerm(Last(a), op, b);
    }
    TwoEvaluated(m, op, Var(x), Var(y));
  }

  /** A number assigned is what the next evaluation of its cached variable answers; for any other nothing changes. */
  lemma AssignedThenAnswered(lex: Lexer, m: Arithmetic, s: State, w: Inputs.Write, text: string, x: string)
    requires Coherent(lex, s) && text in s.cache && s.cache[text].Program? && lex(text) == [TVar(x)]
    requires IdFits(s, x) && IdFits(Assigned(s, w), x)
    ensures text in Assigned(s, w).cache
    ensures Answer(m, Assigned(s, w), text) ==
            if w.name != x || w.v.None? then Answer(m, s, text)
            else match w.v.value case Float(v) => Some(v) case _ => None
  {
    hide *;
    AssignedCoherent(lex, s, w);
    VariableAnswer(lex, m, s, text, x);
    VariableAnswer(lex, m, Assigned(s, w), text, x);
    VariableIsThere(lex, s, text, x);
    AssignedNumber(s, w, x);
  }

  lemma VariableIsThere(lex: Lexer, s: State, text: string, x: string)
    requires Coherent(lex, s) && text in s.cache && s.cache[text].Program? && lex(text) == [TVar(x)]
    ensures Tidy(s) && x in s.table
  {
    hide Emit, Rename;
    var c: Chain<real, string> :| Text(c) == lex(text) && StandsFor(s, c, s.cache[text].code);
    TextOfVariable(c, x);
    assert OperandVars(c.operand) == [x];
    assert Vars(c) == [x] + [];
    assert HasId(s, Vars(c)[0]);
  }

  lemma AssignedNumber(s: State, w: Inputs.Write, x: string)
    requires Tidy(s) && x in s.table
    ensures NumberOf(Assigned(s, w), x) ==
            if w.name != x || w.v.None? then NumberOf(s, x)
            else match w.v.value case Float(v) => Some(v) case _ => None
  {
    hide Inputs.Edge, Inputs.Created;
    if w.name == x {
      assert Assigned(s, w).nodes[s.table[x]].entry == Inputs.Rewritten(s.nodes[s.table[x]].entry, w);
    } else if w.name in s.table {
      assert s.table[w.name] != s.table[x];
    }
  }
}
