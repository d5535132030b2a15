/**
  The laws of the formula evaluator as a whole: text to value, for every arithmetic.
 */
module FormulaLaws {
  import opened Wrappers
  import opened Formula
  import opened Precedence
  import opened StackMachine
  import opened Compiler

  // ----- Precedence ----------------------------------------------------------------

  /**
    A formula where one pop suffices everywhere compiles to its usual reading, and its run
    gives the reading's value or fails as the reading fails; the slots never run out.
   */
  lemma {:induction false} RunsAsRead<N, S>(g: Resolver<S>, c: Chain<N, string>, env: S, m: Machine<N, int>)
    requires Bind(g, c, env).chain.Some?
    requires
      var b := Bind(g, c, env).chain.value;
      Nesting(b) <= MAX_LEVEL && Size(b) <= MAX_CODE && OnePopSuffices(b, [])
    ensures
      var b := Bind(g, c, env).chain.value;
      && Compile(g, Text(c), env) == Done(|Text(c)|, Postfix(Reading(b)), Bind(g, c, env).env)
      && Run(m, Postfix(Reading(b))) == Eval(m, Reading(b))
  {
    var b := Bind(g, c, env).chain.value;
    hide Bind, Compile, Run, Emit, Eval, Nesting;
    PrecedenceExactly(b);
    OnePopFits(b, []);
    FitsWithin(b, [], 3, MAX_OPERATORS);
    CompileExactly(g, Text(c), env);
    ReadingIsShallow(b);
    RunPostfix(m, Reading(b));
  }

  lemma ReadingIsShallow<N, V>(b: Chain<N, V>)
    requires Nesting(b) <= MAX_LEVEL
    ensures Slots(Reading(b)) < SLOTS
  {
    ReadingSlots(None, None, b, 1 + 2 * MAX_LEVEL);
  }

  /** A tree over the free algebra evaluates to itself. */
  function LiftTree<N, V>(t: Tree<N, V>): Tree<Tree<N, V>, V> {
    match t
    case Leaf(n) => Leaf(Leaf(n))
    case Var(x) => Var(x)
    case Bin(op, l, r) => Bin(op, LiftTree(l), LiftTree(r))
    case Int(a) => Int(LiftTree(a))
  }

  lemma LiftConcat<N, V>(a: seq<Instr<N, V>>, b: seq<Instr<N, V>>)
    ensures Lift(a + b) == Lift(a) + Lift(b)
  {
    if a == [] {
      assert a + b == b;
    } else {
      assert (a + b)[1..] == a[1..] + b;
    }
  }

  lemma {:induction false} LiftPostfix<N, V>(t: Tree<N, V>)
    ensures Lift(Postfix(t)) == Postfix(LiftTree(t))
    ensures Slots(LiftTree(t)) == Slots(t)
    ensures Eval(Free<N, V>(), LiftTree(t)) == Value(t)
  {
    match t
    case Leaf(_) =>
    case Var(_) =>
    case Int(a) =>
      LiftPostfix(a);
      LiftConcat(Postfix(a), [Exec(CallInt)]);
    case Bin(op, l, r) =>
      LiftPostfix(l);
      LiftPostfix(r);
      LiftConcat(Postfix(l) + Postfix(r), [Exec(Binary(op))]);
      LiftConcat(Postfix(l), Postfix(r));
  }

  /**
    The exact condition on values: for a formula within the limits, running what the compiler
    emits agrees with the usual reading over the free algebra, where no two different
    computations agree by accident, if and only if one pop suffices everywhere.
   */
  lemma {:induction false} ValueExactly<N>(b: Chain<N, int>)
    requires Nesting(b) <= MAX_LEVEL
    ensures Run(Free<N, int>(), Lift(Emit(b, []))) == Value(Reading(b)) <==> OnePopSuffices(b, [])
  {
    PrecedenceExactly(b);
    hide Run, Emit, Eval, Lift, Nesting;
    if OnePopSuffices(b, []) {
      ReadingIsShallow(b);
      LiftPostfix(Reading(b));
      RunPostfix(Free<N, int>(), LiftTree(Reading(b)));
    }
    if Run(Free<N, int>(), Lift(Emit(b, []))) == Value(Reading(b)) {
      FreeRun(Emit(b, []), Reading(b));
    }
  }

  /**
    The same for every arithmetic on trees at once: run and reading agree, in value and in
    failure, whatever the operators do, if and only if one pop suffices.
   */
  lemma {:induction false} MeansExactly<N>(b: Chain<N, int>)
    requires Nesting(b) <= MAX_LEVEL
    ensures (forall m: Machine<Tree<N, int>, int> :: Run(m, Lift(Emit(b, []))) == Eval(m, LiftTree(Reading(b))))
            <==> OnePopSuffices(b, [])
  {
    ValueExactly(b);
    LiftPostfix(Reading(b));
    PrecedenceExactly(b);
    ReadingIsShallow(b);
    hide Run, Emit, Eval, Lift, LiftTree, Nesting, Reading, Slots;
    var code, t := Lift(Emit(b, [])), LiftTree(Reading(b));
    if OnePopSuffices(b, []) {
      forall m: Machine<Tree<N, int>, int>
        ensures Run(m, code) == Eval(m, t)
      {
        RunPostfix(m, t);
      }
    }
    if forall m: Machine<Tree<N, int>, int> :: Run(m, code) == Eval(m, t) {
      assert Run(Free<N, int>(), code) == Eval(Free<N, int>(), t);
    }
  }

  function Example<V>(a: int, b: int, c: int, d: int): Chain<int, V> {
    Link(Number(a), Minus, Link(Number(b), Times, Link(Number(c), Plus, Last(Number(d)))))
  }

  /** `a - b * c + d` needs a second pop: its instructions are those of `a - (b * c + d)`. */
  lemma ExampleCode(a: int, b: int, c: int, d: int)
    ensures !OnePopSuffices(Example<int>(a, b, c, d), [])
    ensures Emit(Example<int>(a, b, c, d), []) ==
            Postfix(Bin(Minus, Leaf(a), Bin(Plus, Bin(Times, Leaf(b), Leaf(c)), Leaf(d))))
    ensures Reading(Example<int>(a, b, c, d)) ==
            Bin(Plus, Bin(Minus, Leaf(a), Bin(Times, Leaf(b), Leaf(c))), Leaf(d))
  {
    ExampleReading(a, b, c, d);
    hide Reading;
    var d0: Chain<int, int> := Last(Number(d));
    var c0 := Link(Number(c), Plus, d0);
    var b0 := Link(Number(b), Times, c0);
    var f := Link(Number(a), Minus, b0);
    var m, t, p := Binary(Minus), Binary(Times), Binary(Plus);
    assert [m, t][..1] == [m];
    assert Pending([], m) == [m];
    assert Pending([m], t) == [m, t];
    assert Pending([m, t], p) == [m, p];
    assert Emit(f, []) == [PushNumber(a), PushNumber(b), PushNumber(c), Exec(t), PushNumber(d), Exec(p), Exec(m)] by {
      assert Emit(d0, [m, p]) == [PushNumber(d), Exec(p), Exec(m)] by {
        assert [m, p][..1] == [m] && [m][..0] == [];
        FlushStep<int, int>([m]);
        FlushStep<int, int>([m, p]);
      }
      assert Emit(c0, [m, t]) == [PushNumber(c), Exec(t), PushNumber(d), Exec(p), Exec(m)];
      assert Emit(b0, [m]) == [PushNumber(b)] + Emit(c0, [m, t]);
      assert Emit(f, []) == [PushNumber(a)] + Emit(b0, [m]);
    }
    assert !OnePopSuffices(f, []) by {
      assert NeedsSecondPop([m, t], p);
      assert !OnePopSuffices(c0, [m, t]);
      assert !OnePopSuffices(b0, [m]);
    }
    hide Emit, OnePopSuffices;
    var product: Tree<int, int> := Bin(Times, Leaf(b), Leaf(c));
    var sum := Bin(Plus, product, Leaf(d));
    assert Postfix(product) == [PushNumber(b), PushNumber(c), Exec(t)];
    assert Postfix(sum) == [PushNumber(b), PushNumber(c), Exec(t), PushNumber(d), Exec(p)];
    assert Postfix(Bin(Minus, Leaf(a), sum)) == [PushNumber(a)] + Postfix(sum) + [Exec(m)];
  }

  lemma ExampleReading(a: int, b: int, c: int, d: int)
    ensures Reading(Example<int>(a, b, c, d)) ==
            Bin(Plus, Bin(Minus, Leaf(a), Bin(Times, Leaf(b), Leaf(c))), Leaf(d))
  {
    var d0: Chain<int, int> := Last(Number(d));
    var c0 := Link(Number(c), Plus, d0);
    var b0 := Link(Number(b), Times, c0);
    var ha, hb: Half<int, int> := Half(Leaf(a), Minus), Half(Leaf(b), Times);
    assert Reading(Example<int>(a, b, c, d)) == ReadingFrom(None, None, Link(Number(a), Minus, b0));
    assert ReadingFrom(None, None, Link(Number(a), Minus, b0)) == ReadingFrom(Some(ha), None, b0);
    assert ReadingFrom(Some(ha), None, b0) == ReadingFrom(Some(ha), Some(hb), c0);
    var hc: Half<int, int> := Half(Bin(Minus, Leaf(a), Bin(Times, Leaf(b), Leaf(c))), Plus);
    assert ReadingFrom(Some(ha), Some(hb), c0) == ReadingFrom(Some(hc), None, d0);
  }

  /** Whole numbers, with division as a function that fails on zero. */
  function Integers<V>(): Machine<int, V> {
    Machine(
      (op: Op, x: int, y: int) =>
        match op
        case Plus => Some(x + y)
        case Minus => Some(x - y)
        case Times => Some(x * y)
        case Divide => if y == 0 then None else Some(x / y)
        case Modulo => if y == 0 then None else Some(x % y),
      (x: int) => x,
      (x: V) => None)
  }

  /** On whole numbers `a - b * c + d` compiles, and runs to `a - (b * c + d)`: wrong unless d is 0. */
  lemma SecondPopExample<S>(g: Resolver<S>, env: S, a: int, b: int, c: int, d: int)
    ensures
      var text, code := Text(Example<string>(a, b, c, d)), Emit(Example<int>(a, b, c, d), []);
      && text == [TNum(a), TOp(Minus), TNum(b), TOp(Times), TNum(c), TOp(Plus), TNum(d)]
      && Compile(g, text, env) == Done(7, code, env)
      && Run(Integers<int>(), code) == Value(a - (b * c + d))
    ensures Eval(Integers<int>(), Reading(Example<int>(a, b, c, d))) == Value(a - b * c + d)
    ensures !OnePopSuffices(Example<int>(a, b, c, d), [])
    ensures a - (b * c + d) == a - b * c + d <==> d == 0
  {
    ExampleText(a, b, c, d);
    ExampleBound(g, env, a, b, c, d);
    ExampleWithin(a, b, c, d);
    ExampleCode(a, b, c, d);
    ExampleValues(a, b, c, d);
    hide *;
    CompileExactly(g, Text(Example<string>(a, b, c, d)), env);
    RunPostfix(Integers<int>(), Bin(Minus, Leaf(a), Bin(Plus, Bin(Times, Leaf(b), Leaf(c)), Leaf(d))));
  }

  lemma ExampleText(a: int, b: int, c: int, d: int)
    ensures Text(Example<string>(a, b, c, d)) ==
            [TNum(a), TOp(Minus), TNum(b), TOp(Times), TNum(c), TOp(Plus), TNum(d)]
  {
    var d0: Chain<int, string> := Last(Number(d));
    var c0 := Link(Number(c), Plus, d0);
    assert Text(d0) == [TNum(d)];
    assert Text(c0) == [TNum(c), TOp(Plus), TNum(d)];
    assert Text(Link(Number(b), Times, c0)) == [TNum(b), TOp(Times), TNum(c), TOp(Plus), TNum(d)];
  }

  lemma ExampleBound<S>(g: Resolver<S>, env: S, a: int, b: int, c: int, d: int)
    ensures Bind(g, Example<string>(a, b, c, d), env) == Bound(Some(Example<int>(a, b, c, d)), env)
  {
    var d0: Chain<int, string> := Last(Number(d));
    var c0 := Link(Number(c), Plus, d0);
    var b0 := Link(Number(b), Times, c0);
    assert Bind(g, d0, env) == Bound(Some(Last(Number(d))), env);
    assert Bind(g, c0, env) == Bound(Some(Link(Number(c), Plus, Last(Number(d)))), env);
    assert Bind(g, b0, env) == Bound(Some(Link(Number(b), Times, Link(Number(c), Plus, Last(Number(d))))), env);
  }

  lemma ExampleWithin(a: int, b: int, c: int, d: int)
    ensures Within(Example<int>(a, b, c, d), 0, 0, [])
  {
    var d0: Chain<int, int> := Last(Number(d));
    var c0 := Link(Number(c), Plus, d0);
    var b0 := Link(Number(b), Times, c0);
    var m, t, p := Binary(Minus), Binary(Times), Binary(Plus);
    assert [m, t][..1] == [m];
    assert Pending([], m) == [m] && Pending([m], t) == [m, t] && Pending([m, t], p) == [m, p];
    assert forall n: int :: OperandOperatorsFit<int, int>(Number(n), MAX_OPERATORS);
    assert OperatorsFit(d0, [m, p], MAX_OPERATORS);
    assert OperatorsFit(c0, [m, t], MAX_OPERATORS);
    assert OperatorsFit(b0, [m], MAX_OPERATORS);
    assert OperatorsFit(Link(Number(a), Minus, b0), [], MAX_OPERATORS);
    assert forall n: int :: OperandSize<int, int>(Number(n)) == 1 && OperandNesting<int, int>(Number(n)) == 0;
    assert Size(d0) == 1 && Nesting(d0) == 0;
    assert Size(c0) == 3 && Nesting(c0) == 0;
    assert Size(b0) == 5 && Nesting(b0) == 0;
    assert Size(Link(Number(a), Minus, b0)) == 7;
  }

  lemma ExampleValues(a: int, b: int, c: int, d: int)
    ensures Eval(Integers<int>(), Bin(Minus, Leaf(a), Bin(Plus, Bin(Times, Leaf(b), Leaf(c)), Leaf(d)))) ==
            Value(a - (b * c + d))
    ensures Slots<int, int>(Bin(Minus, Leaf(a), Bin(Plus, Bin(Times, Leaf(b), Leaf(c)), Leaf(d)))) < SLOTS
    ensures Eval(Integers<int>(), Bin(Plus, Bin(Minus, Leaf(a), Bin(Times, Leaf(b), Leaf(c))), Leaf(d))) ==
            Value(a - b * c + d)
  {
    hide Eval, Slots;
    var product: Tree<int, int> := Bin(Times, Leaf(b), Leaf(c));
    SlotsBin(Times, Leaf(b), Leaf(c));
    SlotsBin(Plus, product, Leaf(d));
    SlotsBin(Minus, Leaf(a), Bin(Plus, product, Leaf(d)));
    EvalLeaf(a);
    EvalLeaf(b);
    EvalLeaf(c);
    EvalLeaf(d);
    EvalBin(Times, Leaf(b), Leaf(c), b, c);
    EvalBin(Plus, product, Leaf(d), b * c, d);
    EvalBin(Minus, Leaf(a), Bin(Plus, product, Leaf(d)), a, b * c + d);
    EvalBin(Minus, Leaf(a), product, a, b * c);
    EvalBin(Plus, Bin(Minus, Leaf(a), product), Leaf(d), a - b * c, d);
  }

  lemma SlotsBin(op: Op, l: Tree<int, int>, r: Tree<int, int>)
    ensures Slots(Bin(op, l, r)) <= Slots(l) + 1 + Slots(r)
    ensures l.Leaf? ==> Slots(l) == 1
    ensures r.Leaf? ==> Slots(r) == 1
  {
  }

  lemma EvalLeaf(n: int)
    ensures Eval(Integers<int>(), Leaf(n)) == Value(n)
  {
  }

  lemma EvalBin(op: Op, l: Tree<int, int>, r: Tree<int, int>, x: int, y: int)
    requires Eval(Integers<int>(), l) == Value(x) && Eval(Integers<int>(), r) == Value(y)
    requires op.Plus? || op.Minus? || op.Times?
    ensures Eval(Integers<int>(), Bin(op, l, r)) ==
            Value(if op.Plus? then x + y else if op.Minus? then x - y else x * y)
  {
  }

  // ----- Fully parenthesised text ---------------------------------------------------

  /** A tree printed with a parenthesis around every binary operand. */
  function Printed<N, V>(t: Tree<N, V>): Chain<N, V>
    decreases t, 1
  {
    match t
    case Bin(op, l, r) => Link(PrintedOperand(l), op, Last(PrintedOperand(r)))
    case _ => Last(PrintedOperand(t))
  }

  function PrintedOperand<N, V>(t: Tree<N, V>): Operand<N, V>
    decreases t, if t.Bin? then 2 else 0
  {
    match t
    case Leaf(n) => Number(n)
    case Var(x) => Variable(x)
    case Int(a) => Call(Printed(a))
    case Bin(_, _, _) => Group(Printed(t))
  }

  /** The tree with its variables bound from left to right. */
  datatype BoundTree<N, S> = BoundTree(tree: Option<Tree<N, int>>, env: S)

  function BindTree<N, S>(g: Resolver<S>, t: Tree<N, string>, env: S): BoundTree<N, S> {
    match t
    case Leaf(n) => BoundTree(Some(Leaf(n)), env)
    case Var(x) =>
      var (env1, id) := g.step(env, x);
      BoundTree(if id.None? then None else Some(Var(id.value)), env1)
    case Int(a) =>
      var BoundTree(a1, env1) := BindTree(g, a, env);
      BoundTree(if a1.None? then None else Some(Int(a1.value)), env1)
    case Bin(op, l, r) =>
      var BoundTree(l1, env1) := BindTree(g, l, env);
      if l1.None? then BoundTree(None, env1) else
      var BoundTree(r1, env2) := BindTree(g, r, env1);
      BoundTree(if r1.None? then None else Some(Bin(op, l1.value, r1.value)), env2)
  }

  lemma {:induction false} BindPrinted<N, S>(g: Resolver<S>, t: Tree<N, string>, env: S)
    ensures
      var b := BindTree(g, t, env);
      Bind(g, Printed(t), env) == Bound(if b.tree.None? then None else Some(Printed(b.tree.value)), b.env)
    decreases t, 1
  {
    match t
    case Bin(op, l, r) =>
      BindPrintedOperand(g, l, env);
      var BoundTree(l1, env1) := BindTree(g, l, env);
      if l1.Some? {
        BindPrintedOperand(g, r, env1);
      }
    case _ => BindPrintedOperand(g, t, env);
  }

  lemma {:induction false} BindPrintedOperand<N, S>(g: Resolver<S>, t: Tree<N, string>, env: S)
    ensures
      var b := BindTree(g, t, env);
      BindOperand(g, PrintedOperand(t), env) ==
        BoundOperand(if b.tree.None? then None else Some(PrintedOperand(b.tree.value)), b.env)
    decreases t, if t.Bin? then 2 else 0
  {
    match t
    case Leaf(_) =>
    case Var(_) =>
    case Int(a) => BindPrinted(g, a, env);
    case Bin(_, _, _) => BindPrinted(g, t, env);
  }

  /** Printing is undone by reading, needs no second pop, and at most two operators wait. */
  lemma {:induction false} ReadingOfPrinted<N, V>(t: Tree<N, V>)
    ensures Reading(Printed(t)) == t
    ensures OnePopSuffices(Printed(t), []) && OperatorsFit(Printed(t), [], 2)
    ensures Size(Printed(t)) == |Postfix(t)|
    decreases t, 1
  {
    match t
    case Bin(op, l, r) =>
      OperandReadingOfPrinted(l);
      OperandReadingOfPrinted(r);
      FirstPending(PrintedOperand(l), op);
      FirstPending(PrintedOperand(r), op);
      OneLinkFits(PrintedOperand(l), op, PrintedOperand(r));
      PairReads(PrintedOperand(l), op, PrintedOperand(r));
    case _ => OperandReadingOfPrinted(t);
  }

  lemma {:induction false} PairReads<N, V>(a: Operand<N, V>, op: Op, b: Operand<N, V>)
    ensures Reading(Link(a, op, Last(b))) == Bin(op, OperandReading(a), OperandReading(b))
    ensures Size(Link(a, op, Last(b))) == OperandSize(a) + 1 + OperandSize(b)
  {
    var x := OperandReading(a);
    var last := Last(b);
    if Multiplicative(op) {
      assert ReadingFrom(None, Some(Half(x, op)), last) == Bin(op, x, OperandReading(b));
    } else {
      assert ReadingFrom(Some(Half(x, op)), None, last) == Bin(op, x, OperandReading(b));
    }
    assert Size(last) == OperandSize(b);
  }

  lemma FirstPending<N, V>(a: Operand<N, V>, op: Op)
    ensures Pending(OperandPending(a, []), Binary(op)) == [Binary(op)]
    ensures |OperandPending(a, [])| <= 1 && !NeedsSecondPop(OperandPending(a, []), Binary(op))
    ensures |OperandPending(a, [Binary(op)])| <= 2
  {
  }

  /** Two operands and one operator between them. */
  lemma OneLinkFits<N, V>(a: Operand<N, V>, op: Op, b: Operand<N, V>)
    requires OperandOnePopSuffices(a) && OperandOperatorsFit(a, 2)
    requires OperandOnePopSuffices(b) && OperandOperatorsFit(b, 2)
    requires Pending(OperandPending(a, []), Binary(op)) == [Binary(op)]
    requires |OperandPending(a, [])| <= 1 && !NeedsSecondPop(OperandPending(a, []), Binary(op))
    requires |OperandPending(b, [Binary(op)])| <= 2
    ensures OnePopSuffices(Link(a, op, Last(b)), []) && OperatorsFit(Link(a, op, Last(b)), [], 2)
  {
    hide OperandOnePopSuffices, OperandOperatorsFit, Pending, OperandPending, NeedsSecondPop;
    assert OperatorsFit(Last(b), [Binary(op)], 2) && OnePopSuffices(Last(b), [Binary(op)]);
  }

  lemma {:induction false} OperandReadingOfPrinted<N, V>(t: Tree<N, V>)
    ensures OperandReading(PrintedOperand(t)) == t
    ensures OperandOnePopSuffices(PrintedOperand(t)) && OperandOperatorsFit(PrintedOperand(t), 2)
    ensures OperandSize(PrintedOperand(t)) == |Postfix(t)|
    decreases t, if t.Bin? then 2 else 0
  {
    match t
    case Leaf(_) =>
    case Var(_) =>
    case Int(a) => ReadingOfPrinted(a);
    case Bin(_, _, _) => ReadingOfPrinted(t);
  }

  /**
    Compiler correctness on printed trees, with no condition on precedence: the text of a tree
    nested at most ten deep, of at most eighty instructions, compiles, and its run is the
    tree's own value or failure.
   */
  lemma {:induction false} PrintedRunsAsTree<N, S>(g: Resolver<S>, t: Tree<N, string>, env: S, m: Machine<N, int>)
    requires BindTree(g, t, env).tree.Some?
    requires
      var b := BindTree(g, t, env).tree.value;
      Nesting(Printed(b)) <= MAX_LEVEL && |Postfix(b)| <= MAX_CODE
    ensures
      var BoundTree(b, env1) := BindTree(g, t, env);
      && Compile(g, Text(Printed(t)), env) == Done(|Text(Printed(t))|, Postfix(b.value), env1)
      && Run(m, Postfix(b.value)) == Eval(m, b.value)
  {
    BindPrinted(g, t, env);
    ReadingOfPrinted(BindTree(g, t, env).tree.value);
    RunsAsRead(g, Printed(t), env, m);
  }

  // ----- Renaming variables ----------------------------------------------------------

  function Rename<N, V, W>(f: V -> W, c: Chain<N, V>): (r: Chain<N, W>)
    ensures r.Last? == c.Last?
    decreases c, 1
  {
    match c
    case Last(o) => Last(RenameOperand(f, o))
    case Link(o, op, rest) => Link(RenameOperand(f, o), op, Rename(f, rest))
  }

  function RenameOperand<N, V, W>(f: V -> W, o: Operand<N, V>): Operand<N, W>
    decreases o, 0
  {
    match o
    case Number(n) => Number(n)
    case Variable(x) => Variable(f(x))
    case Group(c) => Group(Rename(f, c))
    case Call(c) => Call(Rename(f, c))
  }

  function RenameTree<N, V, W>(f: V -> W, t: Tree<N, V>): Tree<N, W> {
    match t
    case Leaf(n) => Leaf(n)
    case Var(x) => Var(f(x))
    case Int(a) => Int(RenameTree(f, a))
    case Bin(op, l, r) => Bin(op, RenameTree(f, l), RenameTree(f, r))
  }

  function RenameInstr<N, V, W>(f: V -> W, i: Instr<N, V>): Instr<N, W> {
    match i
    case PushNumber(n) => PushNumber(n)
    case PushRef(x) => PushRef(f(x))
    case Exec(op) => Exec(op)
  }

  function RenameCode<N, V, W>(f: V -> W, code: seq<Instr<N, V>>): seq<Instr<N, W>> {
    seq(|code|, i requires 0 <= i < |code| => RenameInstr(f, code[i]))
  }

  lemma {:induction false} EmitRenamed<N, V, W>(f: V -> W, c: Chain<N, V>, ops: seq<OpCode>)
    ensures Emit(Rename(f, c), ops) == RenameCode(f, Emit(c, ops))
    decreases c, 1
  {
    hide OperandCode, Flush, Emitted, Pending, RenameOperand;
    OperandRenamed(f, c.operand, ops);
    var ops1 := OperandPending(c.operand, ops);
    var head := OperandCode(c.operand, ops);
    match c
    case Last(_) =>
      FlushRenamed<N, V, W>(f, ops1);
      RenameConcat(f, head, Flush(ops1));
    case Link(_, op, rest) =>
      EmitRenamed(f, rest, Pending(ops1, Binary(op)));
      EmittedRenamed<N, V, W>(f, ops1, Binary(op));
      RenameConcat(f, head, Emitted(ops1, Binary(op)));
      RenameConcat(f, head + Emitted(ops1, Binary(op)), Emit(rest, Pending(ops1, Binary(op))));
  }

  lemma RenameConcat<N, V, W>(f: V -> W, a: seq<Instr<N, V>>, b: seq<Instr<N, V>>)
    ensures RenameCode(f, a + b) == RenameCode(f, a) + RenameCode(f, b)
  {
  }

  lemma EmittedRenamed<N, V, W>(f: V -> W, ops: seq<OpCode>, op: OpCode)
    ensures Emitted<N, W>(ops, op) == RenameCode(f, Emitted<N, V>(ops, op))
  {
  }

  lemma {:induction false} FlushRenamed<N, V, W>(f: V -> W, ops: seq<OpCode>)
    ensures Flush<N, W>(ops) == RenameCode(f, Flush<N, V>(ops))
    decreases |ops|
  {
    if ops != [] {
      FlushRenamed<N, V, W>(f, ops[..|ops| - 1]);
    }
  }

  lemma {:induction false} OperandRenamed<N, V, W>(f: V -> W, o: Operand<N, V>, ops: seq<OpCode>)
    ensures OperandCode(RenameOperand(f, o), ops) == RenameCode(f, OperandCode(o, ops))
    ensures OperandPending(RenameOperand(f, o), ops) == OperandPending(o, ops)
    decreases o, 0
  {
    hide Emit, Emitted, Pending;
    match o
    case Number(_) =>
    case Variable(_) =>
    case Group(c) => EmitRenamed(f, c, []);
    case Call(c) =>
      EmitRenamed(f, c, []);
      EmittedRenamed<N, V, W>(f, ops, CallInt);
      RenameConcat(f, Emit(c, []), Emitted(ops, CallInt));
  }

  // ----- Running renamed instructions ----------------------------------------------

  function RenameCell<N, V, W>(f: V -> W, c: Cell<N, V>): Cell<N, W> {
    match c
    case Val(v) => Val(v)
    case Ref(x) => Ref(f(x))
  }

  function RenameCells<N, V, W>(f: V -> W, s: seq<Cell<N, V>>): seq<Cell<N, W>> {
    seq(|s|, i requires 0 <= i < |s| => RenameCell(f, s[i]))
  }

  function RenameStacked<N, V, W>(f: V -> W, r: Stacked<N, V>): Stacked<N, W> {
    match r
    case Running(s) => Running(RenameCells(f, s))
    case Stopped(why) => Stopped(why)
  }

  /** The machines compute alike, and look the same things up under the old and the new name. */
  ghost predicate Alike<N, V(!new), W>(f: V -> W, m: Machine<N, V>, m': Machine<N, W>, known: set<V>) {
    && m.apply == m'.apply && m.trunc == m'.trunc
    && forall x :: x in known ==> m.lookup(x) == m'.lookup(f(x))
  }

  predicate RefersTo<N, V(==)>(code: seq<Instr<N, V>>, known: set<V>) {
    forall i :: 0 <= i < |code| && code[i].PushRef? ==> code[i].ref in known
  }

  predicate HoldsOnly<N, V(==)>(s: seq<Cell<N, V>>, known: set<V>) {
    forall i :: 0 <= i < |s| && s[i].Ref? ==> s[i].ref in known
  }

  lemma StepRenamed<N, V(!new), W>(
      f: V -> W, m: Machine<N, V>, m': Machine<N, W>, known: set<V>, i: Instr<N, V>, s: seq<Cell<N, V>>)
    requires Alike(f, m, m', known) && HoldsOnly(s, known) && (i.PushRef? ==> i.ref in known)
    ensures Step(m', RenameInstr(f, i), RenameCells(f, s)) == RenameStacked(f, Step(m, i, s))
    ensures Step(m, i, s).Running? ==> HoldsOnly(Step(m, i, s).cells, known)
  {
    var r := Step(m, i, s);
    if r.Running? {
      assert Step(m', RenameInstr(f, i), RenameCells(f, s)).Running?;
      assert Step(m', RenameInstr(f, i), RenameCells(f, s)).cells == RenameCells(f, r.cells);
    }
  }

  lemma {:induction false} ExecuteRenamed<N, V(!new), W>(
      f: V -> W, m: Machine<N, V>, m': Machine<N, W>, known: set<V>, code: seq<Instr<N, V>>, s: seq<Cell<N, V>>)
    requires Alike(f, m, m', known) && HoldsOnly(s, known) && RefersTo(code, known)
    ensures Execute(m', RenameCode(f, code), RenameCells(f, s)) == RenameStacked(f, Execute(m, code, s))
    decreases |code|
  {
    if code != [] {
      StepRenamed(f, m, m', known, code[0], s);
      hide Step;
      var r := Step(m, code[0], s);
      assert RenameCode(f, code)[1..] == RenameCode(f, code[1..]);
      if r.Running? && |r.cells| < SLOTS {
        ExecuteRenamed(f, m, m', known, code[1..], r.cells);
      }
    }
  }

  /** Renaming the variables of a program and of what they are looked up in changes no result. */
  lemma {:induction false} RunRenamed<N, V(!new), W>(
      f: V -> W, m: Machine<N, V>, m': Machine<N, W>, known: set<V>, code: seq<Instr<N, V>>)
    requires Alike(f, m, m', known) && RefersTo(code, known)
    ensures Run(m', RenameCode(f, code)) == Run(m, code)
  {
    ExecuteRenamed(f, m, m', known, code, []);
    hide Execute;
    assert RenameCells<N, V, W>(f, []) == [];
  }
}
