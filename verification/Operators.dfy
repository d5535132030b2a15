/**
  The operators of src/mea_eval.c by name: `*`, `/` and `%` bind more strongly than `+` and
  `-`, and operators of one group associate to the left.  The usual reading is pinned by the
  grammar, and what is compiled by the tokens and the instructions.
 */
module Operators {
  import opened Wrappers
  import opened Formula
  import opened Precedence
  import opened Slices
  import opened Compiler
  import opened Overrun

  const ADDING: set<Op> := {Plus, Minus}
  const MULTIPLYING: set<Op> := {Times, Divide, Modulo}

  // ----- The grammar of the usual reading --------------------------------------------------

  /** Two chains of one level with an operator between them. */
  function Join<N, V>(x: Chain<N, V>, op: Op, y: Chain<N, V>): Chain<N, V> {
    match x
    case Last(o) => Link(o, op, y)
    case Link(o, first, rest) => Link(o, first, Join(rest, op, y))
  }

  /** A term: no `+` and no `-` at this level. */
  predicate Term<N, V>(c: Chain<N, V>) {
    c.Link? ==> c.op in MULTIPLYING && Term(c.rest)
  }

  /** expression = term = factor: a number, a variable, an expression in parentheses, or a function of one. */
  lemma ReadingOfOperand<N, V>(o: Operand<N, V>)
    ensures Reading(Last(o)) == OperandReading(o)
    ensures OperandReading(o) ==
      match o
      case Number(n) => Leaf(n)
      case Variable(x) => Var(x)
      case Group(c) => Reading(c)
      case Call(c) => Int(Reading(c))
  {
  }

  /** expression = expression addop term. */
  lemma ReadingOfSum<N, V>(x: Chain<N, V>, add: Op, y: Chain<N, V>)
    requires add in ADDING && Term(y)
    ensures Reading(Join(x, add, y)) == Bin(add, Reading(x), Reading(y))
  {
    SumFrom(None, None, x, add, y);
    TermFrom(Some(Half(Reading(x), add)), None, y);
  }

  /** term = term mulop factor. */
  lemma ReadingOfTerm<N, V>(x: Chain<N, V>, mul: Op, o: Operand<N, V>)
    requires mul in MULTIPLYING && Term(x)
    ensures Reading(Join(x, mul, Last(o))) == Bin(mul, Reading(x), OperandReading(o))
  {
    ProductFrom(None, x, mul, o);
  }

  lemma {:induction false} SumFrom<N, V>(
      sum: Option<Half<N, V>>, term: Option<Half<N, V>>, x: Chain<N, V>, add: Op, y: Chain<N, V>)
    requires add in ADDING
    ensures ReadingFrom(sum, term, Join(x, add, y)) ==
            ReadingFrom(Some(Half(ReadingFrom(sum, term, x), add)), None, y)
    decreases x
  {
    if x.Link? {
      var t := Close(term, OperandReading(x.operand));
      if x.op in MULTIPLYING {
        SumFrom(sum, Some(Half(t, x.op)), x.rest, add, y);
      } else {
        SumFrom(Some(Half(Close(sum, t), x.op)), None, x.rest, add, y);
      }
    }
  }

  lemma {:induction false} TermFrom<N, V>(sum: Option<Half<N, V>>, term: Option<Half<N, V>>, y: Chain<N, V>)
    requires Term(y)
    ensures ReadingFrom(sum, term, y) == Close(sum, ReadingFrom(None, term, y))
    decreases y
  {
    if y.Link? {
      TermFrom(sum, Some(Half(Close(term, OperandReading(y.operand)), y.op)), y.rest);
    }
  }

  lemma {:induction false} ProductFrom<N, V>(term: Option<Half<N, V>>, x: Chain<N, V>, mul: Op, o: Operand<N, V>)
    requires mul in MULTIPLYING && Term(x)
    ensures ReadingFrom(None, term, Join(x, mul, Last(o))) ==
            Bin(mul, ReadingFrom(None, term, x), OperandReading(o))
    decreases x
  {
    if x.Link? {
      ProductFrom(Some(Half(Close(term, OperandReading(x.operand)), x.op)), x.rest, mul, o);
    }
  }

  // ----- Three operands --------------------------------------------------------------------

  function Three<N, V>(a: Operand<N, V>, op1: Op, b: Operand<N, V>, op2: Op, c: Operand<N, V>): Chain<N, V> {
    Link(a, op1, Link(b, op2, Last(c)))
  }

  lemma JoinLast<N, V>(o: Operand<N, V>, op: Op, y: Chain<N, V>)
    ensures Join(Last(o), op, y) == Link(o, op, y)
  {
  }

  lemma JoinLink<N, V>(o: Operand<N, V>, first: Op, rest: Chain<N, V>, op: Op, y: Chain<N, V>)
    ensures Join(Link(o, first, rest), op, y) == Link(o, first, Join(rest, op, y))
  {
  }

  /** The two operators are of one group. */
  predicate Alike(op1: Op, op2: Op) {
    op1 in ADDING <==> op2 in ADDING
  }

  /** `a + b * c` and its like, `a * b + c` and its like, and two operators of one group. */
  lemma ReadingOfThree<N, V>(a: Operand<N, V>, op1: Op, b: Operand<N, V>, op2: Op, c: Operand<N, V>)
    ensures op1 in ADDING && op2 in MULTIPLYING ==>
      Reading(Three(a, op1, b, op2, c)) ==
      Bin(op1, OperandReading(a), Bin(op2, OperandReading(b), OperandReading(c)))
    ensures (op1 in MULTIPLYING && op2 in ADDING) || Alike(op1, op2) ==>
      Reading(Three(a, op1, b, op2, c)) ==
      Bin(op2, Bin(op1, OperandReading(a), OperandReading(b)), OperandReading(c))
  {
    var two, bc := Link(a, op1, Last(b)), Link(b, op2, Last(c));
    JoinLast(a, op1, bc);
    JoinLast(a, op1, Last(b));
    JoinLast(b, op2, Last(c));
    JoinLink(a, op1, Last(b), op2, Last(c));
    hide Join;
    if op2 in ADDING {
      ReadingOfSum(two, op2, Last(c));
      if op1 in ADDING {
        ReadingOfSum(Last(a), op1, Last(b));
      } else {
        ReadingOfTerm(Last(a), op1, b);
      }
    } else if op1 in ADDING {
      ReadingOfSum(Last(a), op1, bc);
      ReadingOfTerm(Last(b), op2, c);
    } else {
      ReadingOfTerm(two, op2, c);
      ReadingOfTerm(Last(a), op1, b);
    }
  }

  /**
    What is emitted for three operands, none a function call: the second operator's
    instruction comes before the first one's exactly where only the second multiplies.
   */
  lemma EmittedForThree<N, V>(a: Operand<N, V>, op1: Op, b: Operand<N, V>, op2: Op, c: Operand<N, V>)
    requires !a.Call? && !b.Call? && !c.Call?
    ensures
      var code := Emit(Three(a, op1, b, op2, c), []);
      var x, y, z := OperandCode(a, []), OperandCode(b, []), OperandCode(c, []);
      code == if op1 in ADDING && op2 in MULTIPLYING
              then x + y + z + [Exec(Binary(op2)), Exec(Binary(op1))]
              else x + y + [Exec(Binary(op1))] + z + [Exec(Binary(op2))]
  {
    hide Emit, OperandCode, OperandPending, Emitted, Pending, Flush, Priority;
    var p, q := Binary(op1), Binary(op2);
    var bc, last := Link(b, op2, Last(c)), Last(c);
    var x, y, z := OperandCode(a, []), OperandCode(b, []), OperandCode(c, []);
    SameWhereverItStands(a, []);
    SameWhereverItStands(b, [p]);
    SameWhereverItStands(c, [p, q]);
    SameWhereverItStands(c, [q]);
    FlushTwo<N, V>(p, q);
    Arrives<N, V>(op1, op2);
    EmitParts(Link(a, op1, bc), []);
    EmitParts(bc, [p]);
    if op1 in ADDING && op2 in MULTIPLYING {
      EmitParts(last, [p, q]);
      assert x + [] + (y + [] + (z + [Exec(q), Exec(p)])) == x + y + z + [Exec(q), Exec(p)];
    } else {
      EmitParts(last, [q]);
      assert x + [] + (y + [Exec(p)] + (z + [Exec(q)])) == x + y + [Exec(p)] + z + [Exec(q)];
    }
  }

  /** What is emitted beside a function call: its instruction comes before the operator's, on either side. */
  lemma EmittedForCall<N, V>(a: Operand<N, V>, op: Op, arg: Chain<N, V>)
    requires !a.Call?
    ensures Emit(Link(a, op, Last(Call(arg))), []) ==
            OperandCode(a, []) + Emit(arg, []) + [Exec(CallInt), Exec(Binary(op))]
    ensures Emit(Link(Call(arg), op, Last(a)), []) ==
            Emit(arg, []) + [Exec(CallInt)] + OperandCode(a, []) + [Exec(Binary(op))]
  {
    hide *;
    var p, x, code := Binary(op), OperandCode(a, []), Emit(arg, []);
    CallArrives<N, V>(op, arg);
    SameWhereverItStands(a, []);
    SameWhereverItStands(a, [p]);
    FlushTwo<N, V>(p, CallInt);
    Arrives<N, V>(op, op);
    EmitParts(Link(a, op, Last(Call(arg))), []);
    EmitParts(Last(Call(arg)), [p]);
    EmitParts(Link(Call(arg), op, Last(a)), []);
    EmitParts(Last(a), [p]);
    Regroup(x, [], code, [], [Exec(CallInt), Exec(p)]);
    Regroup(code, [], [Exec(CallInt)], x, [Exec(p)]);
  }

  lemma Regroup<T>(a: seq<T>, none: seq<T>, b: seq<T>, c: seq<T>, d: seq<T>)
    requires none == []
    ensures a + none + (b + c + d) == a + b + c + d
    ensures a + none + b + (c + d) == a + b + c + d
    ensures b + none == b && a + b + none + d == a + b + d
  {
    assert a + none == a && b + none == b && a + b + none == a + b;
    assert a + (b + c + d) == a + b + c + d;
    assert a + b + (c + d) == a + b + c + d;
  }

  /** A call waits above any operator before it, and makes way for any operator after it. */
  lemma CallArrives<N, V>(op: Op, arg: Chain<N, V>)
    ensures
      var p, call: Operand<N, V> := Binary(op), Call(arg);
      && OperandCode(call, [p]) == Emit(arg, []) + [] && OperandPending(call, [p]) == [p, CallInt]
      && OperandCode(call, []) == Emit(arg, []) + [] && OperandPending(call, []) == [CallInt]
      && Emitted<N, V>([CallInt], p) == [Exec(CallInt)] && Pending([CallInt], p) == [p]
  {
    hide Emit;
    var p := Binary(op);
    assert [] + [p] == [p] && [] + [CallInt] == [CallInt] && [CallInt][..0] == [];
  }

  /** The second operator waits above the first exactly where only the second multiplies. */
  lemma Arrives<N, V>(op1: Op, op2: Op)
    ensures
      var p, q := Binary(op1), Binary(op2);
      && Emitted<N, V>([], p) == [] && Pending([], p) == [p]
      && if op1 in ADDING && op2 in MULTIPLYING then Emitted<N, V>([p], q) == [] && Pending([p], q) == [p, q]
         else Emitted<N, V>([p], q) == [Exec(p)] && Pending([p], q) == [q]
  {
    var p, q := Binary(op1), Binary(op2);
    assert [p][..0] == [];
    assert [] + [q] == [q] && [] + [p] == [p];
  }

  lemma {:induction false} SameWhereverItStands<N, V>(o: Operand<N, V>, ops: seq<OpCode>)
    requires !o.Call?
    ensures OperandCode(o, ops) == OperandCode(o, []) && OperandPending(o, ops) == ops
  {
  }

  lemma FlushTwo<N, V>(p: OpCode, q: OpCode)
    ensures Flush<N, V>([q]) == [Exec(q)] && Flush<N, V>([p, q]) == [Exec(q), Exec(p)]
    ensures Flush<N, V>([p]) == [Exec(p)]
  {
    FlushStep<N, V>([p]);
    FlushStep<N, V>([q]);
    FlushStep<N, V>([p, q]);
    assert [p, q][..1] == [p] && [p][..0] == [] && [q][..0] == [];
  }

  /** The tokens of three operands compile to those instructions, the operands within the limits. */
  lemma CompiledThree<N, S>(
      g: Resolver<S>, a: Operand<N, string>, op1: Op, b: Operand<N, string>, op2: Op, c: Operand<N, string>, env: S)
    requires !a.Call? && !b.Call? && !c.Call?
    requires
      var bound := Bind(g, Three(a, op1, b, op2, c), env).chain;
      bound.Some? && Nesting(bound.value) <= MAX_LEVEL && KeepsWithin(bound.value)
    ensures
      var text := OperandText(a) + [TOp(op1)] + OperandText(b) + [TOp(op2)] + OperandText(c);
      var BoundOperand(a', env1) := BindOperand(g, a, env);
      var BoundOperand(b', env2) := BindOperand(g, b, env1);
      var BoundOperand(c', env3) := BindOperand(g, c, env2);
      && a'.Some? && b'.Some? && c'.Some?
      && var x, y, z := OperandCode(a'.value, []), OperandCode(b'.value, []), OperandCode(c'.value, []);
         Compile(g, text, env) ==
         Done(|text|,
              if op1 in ADDING && op2 in MULTIPLYING
              then x + y + z + [Exec(Binary(op2)), Exec(Binary(op1))]
              else x + y + [Exec(Binary(op1))] + z + [Exec(Binary(op2))],
              env3)
  {
    var chain := Three(a, op1, b, op2, c);
    var bound := Bind(g, chain, env).chain.value;
    var text := OperandText(a) + [TOp(op1)] + OperandText(b) + [TOp(op2)] + OperandText(c);
    assert Text(chain) == text by {
      var last, mid := OperandText(c), Link(b, op2, Last(c));
      assert Text(mid) == OperandText(b) + [TOp(op2)] + last;
      assert Text(chain) == OperandText(a) + [TOp(op1)] + Text(mid);
    }
    BindsThree(g, a, op1, b, op2, c, env);
    OperatorsFitExactly(bound, MAX_OPERATORS);
    WithinAtFirst(bound);
    hide Compile, Bind, BindOperand, Emit, Text, OperandText, OperandCode, Nesting;
    CompileExactly(g, text, env);
    EmittedForThree(bound.operand, op1, bound.rest.operand, op2, bound.rest.rest.operand);
  }

  lemma BindsThree<N, S>(
      g: Resolver<S>, a: Operand<N, string>, op1: Op, b: Operand<N, string>, op2: Op, c: Operand<N, string>, env: S)
    requires !a.Call? && !b.Call? && !c.Call?
    requires Bind(g, Three(a, op1, b, op2, c), env).chain.Some?
    ensures
      var BoundOperand(a', env1) := BindOperand(g, a, env);
      var BoundOperand(b', env2) := BindOperand(g, b, env1);
      var BoundOperand(c', env3) := BindOperand(g, c, env2);
      && a'.Some? && b'.Some? && c'.Some?
      && !a'.value.Call? && !b'.value.Call? && !c'.value.Call?
      && Bind(g, Three(a, op1, b, op2, c), env) == Bound(Some(Three(a'.value, op1, b'.value, op2, c'.value)), env3)
  {
    var env1 := BindOperand(g, a, env).env;
    var env2 := BindOperand(g, b, env1).env;
    BindOperandIs(g, a, env);
    BindOperandIs(g, b, env1);
    BindOperandIs(g, c, env2);
    hide BindOperand;
    assert Bind(g, Last(c), env2).chain.Some? ==> BindOperand(g, c, env2).operand.Some?;
  }

  /** Three numbers: whatever the two operators, the instructions that the tokens compile to. */
  lemma CompiledNumbers<N, S>(g: Resolver<S>, x: N, op1: Op, y: N, op2: Op, z: N, env: S)
    ensures
      Compile(g, [TNum(x), TOp(op1), TNum(y), TOp(op2), TNum(z)], env) ==
      Done(5,
           if op1 in ADDING && op2 in MULTIPLYING
           then [PushNumber(x), PushNumber(y), PushNumber(z), Exec(Binary(op2)), Exec(Binary(op1))]
           else [PushNumber(x), PushNumber(y), Exec(Binary(op1)), PushNumber(z), Exec(Binary(op2))],
           env)
  {
    var a: Operand<N, string>, b: Operand<N, string>, c: Operand<N, string> := Number(x), Number(y), Number(z);
    var chain := Three(a, op1, b, op2, c);
    NumbersBind(g, x, op1, y, op2, z, env);
    assert OperandText(a) == [TNum(x)] && OperandText(b) == [TNum(y)] && OperandText(c) == [TNum(z)];
    NumbersKeepWithin<N>(x, op1, y, op2, z);
    assert OperandText(a) + [TOp(op1)] + OperandText(b) + [TOp(op2)] + OperandText(c) ==
           [TNum(x), TOp(op1), TNum(y), TOp(op2), TNum(z)];
    CompiledThree(g, a, op1, b, op2, c, env);
    BindOperandIs(g, a, env);
    BindOperandIs(g, b, env);
    BindOperandIs(g, c, env);
    var a': Operand<N, int>, b': Operand<N, int>, c': Operand<N, int> := Number(x), Number(y), Number(z);
    assert OperandCode(a', []) == [PushNumber(x)] && OperandCode(b', []) == [PushNumber(y)];
    assert OperandCode(c', []) == [PushNumber(z)];
    hide Compile, KeepsWithin, Nesting, Bind, OperandText, BindOperand, OperandCode;
  }

  lemma NumbersBind<N, S>(g: Resolver<S>, x: N, op1: Op, y: N, op2: Op, z: N, env: S)
    ensures Bind(g, Three(Number(x), op1, Number(y), op2, Number(z)), env) ==
            Bound(Some(Three(Number(x), op1, Number(y), op2, Number(z))), env)
  {
    var last: Chain<N, string> := Last(Number(z));
    assert Bind(g, last, env) == Bound(Some(Last(Number(z))), env);
    assert Bind(g, Link(Number(y), op2, last), env) == Bound(Some(Link(Number(y), op2, Last(Number(z)))), env);
  }

  lemma NumbersKeepWithin<N>(x: N, op1: Op, y: N, op2: Op, z: N)
    ensures
      var c: Chain<N, int> := Three(Number(x), op1, Number(y), op2, Number(z));
      KeepsWithin(c) && Nesting(c) == 0
  {
    var last: Chain<N, int> := Last(Number(z));
    var rest := Link(Number(y), op2, last);
    var whole := Link(Number(x), op1, rest);
    NumberIsSmall<N>(x);
    NumberIsSmall<N>(y);
    NumberIsSmall<N>(z);
    LinkIsSmall(last);
    LinkIsSmall(rest);
    LinkIsSmall(whole);
    var p, q := Priority(Binary(op1)), Priority(Binary(op2));
    hide Arrivals, InnerRisesWithin, Size, Nesting, Priority;
    assert Arrivals(rest) == [q] + [];
    assert Arrivals(whole) == [p] + ([q] + []) == [p, q];
    assert [p, q][1..] == [q] && [q][1..] == [];
    assert Rises(q, []) == 0 && Rises(p, [q]) <= 1;
    assert Rises(0, [p, q]) <= 2;
  }

  lemma NumberIsSmall<N>(x: N)
    ensures
      var o: Operand<N, int> := Number(x);
      OperandRisesWithin(o, MAX_OPERATORS) && OperandSize(o) == 1 && OperandNesting(o) == 0 && !o.Call?
  {
  }

  lemma LinkIsSmall<N>(c: Chain<N, int>)
    ensures Size(c) == OperandSize(c.operand) + if c.Link? then 1 + Size(c.rest) else 0
    ensures Nesting(c) == Max(OperandNesting(c.operand), if c.Link? then Nesting(c.rest) else 0)
    ensures InnerRisesWithin(c, MAX_OPERATORS) <==>
            OperandRisesWithin(c.operand, MAX_OPERATORS) && (c.Link? ==> InnerRisesWithin(c.rest, MAX_OPERATORS))
    ensures !c.operand.Call? ==>
      Arrivals(c) == if c.Last? then [] else [Priority(Binary(c.op))] + Arrivals(c.rest)
  {
  }
}
