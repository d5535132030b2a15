/**
  The formula language of src/mea_eval.c: what a formula is (a chain of operands
  at each parenthesis level), what the usual reading of it is (a tree, with
  precedence and left associativity), and which instructions the one-pass
  compiler emits for it.
 */
module Formula {
  import opened Wrappers

  datatype Op = Plus | Minus | Times | Divide | Modulo

  /** What the lexer hands over; TJunk is any text that starts no operand and is no operator. */
  datatype Token<N> =
    | TNum(value: N)
    | TVar(name: string)
    | TInt
    | TOpen
    | TClose
    | TOp(op: Op)
    | TJunk

  /** One parenthesis level: operands separated by operators.  V is how a variable is named. */
  datatype Operand<N, V> =
    | Number(value: N)
    | Variable(ref: V)
    | Group(inner: Chain<N, V>)
    | Call(arg: Chain<N, V>)

  datatype Chain<N, V> =
    | Last(operand: Operand<N, V>)
    | Link(operand: Operand<N, V>, op: Op, rest: Chain<N, V>)

  /** The text of a formula, as tokens. */
  function Text<N>(c: Chain<N, string>): seq<Token<N>>
    ensures |Text(c)| > 0
  {
    match c
    case Last(o) => OperandText(o)
    case Link(o, op, rest) => OperandText(o) + [TOp(op)] + Text(rest)
  }

  function OperandText<N>(o: Operand<N, string>): seq<Token<N>>
    ensures |OperandText(o)| > 0
  {
    match o
    case Number(n) => [TNum(n)]
    case Variable(x) => [TVar(x)]
    case Group(c) => [TOpen] + Text(c) + [TClose]
    case Call(c) => [TInt, TOpen] + Text(c) + [TClose]
  }

  /** How many parenthesis levels a chain opens below its own. */
  function Nesting<N, V>(c: Chain<N, V>): nat {
    match c
    case Last(o) => OperandNesting(o)
    case Link(o, _, rest) => Max(OperandNesting(o), Nesting(rest))
  }

  function OperandNesting<N, V>(o: Operand<N, V>): nat {
    match o
    case Number(_) => 0
    case Variable(_) => 0
    case Group(c) => 1 + Nesting(c)
    case Call(c) => 1 + Nesting(c)
  }

  function Max(a: nat, b: nat): nat {
    if a < b then b else a
  }

  // ----- The usual reading of a formula -------------------------------------

  datatype Tree<N, V> =
    | Leaf(value: N)
    | Var(ref: V)
    | Bin(op: Op, left: Tree<N, V>, right: Tree<N, V>)
    | Int(arg: Tree<N, V>)

  predicate Multiplicative(op: Op) {
    op.Times? || op.Divide? || op.Modulo?
  }

  /** A left operand and the operator that waits for its right operand. */
  datatype Half<N, V> = Half(left: Tree<N, V>, op: Op)

  function Close<N, V>(h: Option<Half<N, V>>, right: Tree<N, V>): Tree<N, V> {
    match h
    case None => right
    case Some(Half(left, op)) => Bin(op, left, right)
  }

  /** expression = term { addop term }, term = factor { mulop factor }, both to the left. */
  function Reading<N, V>(c: Chain<N, V>): Tree<N, V> {
    ReadingFrom(None, None, c)
  }

  function ReadingFrom<N, V>(sum: Option<Half<N, V>>, term: Option<Half<N, V>>, c: Chain<N, V>): Tree<N, V>
    decreases c, 1
  {
    var t := Close(term, OperandReading(c.operand));
    match c
    case Last(_) => Close(sum, t)
    case Link(_, op, rest) =>
      if Multiplicative(op) then
        ReadingFrom(sum, Some(Half(t, op)), rest)
      else
        ReadingFrom(Some(Half(Close(sum, t), op)), None, rest)
  }

  function OperandReading<N, V>(o: Operand<N, V>): Tree<N, V>
    decreases o, 0
  {
    match o
    case Number(n) => Leaf(n)
    case Variable(x) => Var(x)
    case Group(c) => ReadingFrom(None, None, c)
    case Call(c) => Int(ReadingFrom(None, None, c))
  }

  // ----- Instructions -------------------------------------------------------

  datatype OpCode = Binary(op: Op) | CallInt | Load

  datatype Instr<N, V> = PushNumber(value: N) | PushRef(ref: V) | Exec(code: OpCode)

  /** The instructions of a tree: operands first, operation last. */
  function Postfix<N, V>(t: Tree<N, V>): (code: seq<Instr<N, V>>)
    ensures |code| > 0
  {
    match t
    case Leaf(n) => [PushNumber(n)]
    case Var(x) => [PushRef(x), Exec(Load)]
    case Bin(op, l, r) => Postfix(l) + Postfix(r) + [Exec(Binary(op))]
    case Int(a) => Postfix(a) + [Exec(CallInt)]
  }

  function Priority(code: OpCode): int {
    match code
    case Binary(op) => if Multiplicative(op) then 2 else 1
    case CallInt => 3
    case Load => 3
  }

  /** An operator arrives: emit at most one pending operator, then wait in its turn. */
  function Emitted<N, V>(ops: seq<OpCode>, incoming: OpCode): seq<Instr<N, V>> {
    if |ops| > 0 && Priority(incoming) <= Priority(ops[|ops| - 1]) then [Exec(ops[|ops| - 1])] else []
  }

  function Pending(ops: seq<OpCode>, incoming: OpCode): seq<OpCode> {
    if |ops| > 0 && Priority(incoming) <= Priority(ops[|ops| - 1]) then
      ops[..|ops| - 1] + [incoming]
    else
      ops + [incoming]
  }

  /** What is emitted at the end of a level: the pending operators, last one first. */
  function Flush<N, V>(ops: seq<OpCode>): seq<Instr<N, V>> {
    if ops == [] then [] else [Exec(ops[|ops| - 1])] + Flush(ops[..|ops| - 1])
  }

  /** The instructions emitted for a level, from its first operand, with ops pending. */
  function Emit<N, V>(c: Chain<N, V>, ops: seq<OpCode>): seq<Instr<N, V>>
    decreases c, 1
  {
    var head := OperandCode(c.operand, ops);
    var ops1 := OperandPending(c.operand, ops);
    match c
    case Last(_) => head + Flush(ops1)
    case Link(_, op, rest) =>
      head + Emitted(ops1, Binary(op)) + Emit(rest, Pending(ops1, Binary(op)))
  }

  function OperandCode<N, V>(o: Operand<N, V>, ops: seq<OpCode>): seq<Instr<N, V>>
    decreases o, 0
  {
    match o
    case Number(n) => [PushNumber(n)]
    case Variable(x) => [PushRef(x), Exec(Load)]
    case Group(c) => Emit(c, [])
    case Call(c) => Emit(c, []) + Emitted(ops, CallInt)
  }

  function OperandPending<N, V>(o: Operand<N, V>, ops: seq<OpCode>): seq<OpCode> {
    if o.Call? then Pending(ops, CallInt) else ops
  }

  /** The number of instructions, whatever the order they are emitted in. */
  function Size<N, V>(c: Chain<N, V>): nat {
    match c
    case Last(o) => OperandSize(o)
    case Link(o, _, rest) => OperandSize(o) + 1 + Size(rest)
  }

  function OperandSize<N, V>(o: Operand<N, V>): nat {
    match o
    case Number(_) => 1
    case Variable(_) => 2
    case Group(c) => Size(c)
    case Call(c) => Size(c) + 1
  }

  /** No level of the chain ever has more than cap operators pending at once. */
  predicate OperatorsFit<N, V>(c: Chain<N, V>, ops: seq<OpCode>, cap: nat)
    decreases c, 1
  {
    var ops1 := OperandPending(c.operand, ops);
    && OperandOperatorsFit(c.operand, cap)
    && |ops1| <= cap
    && (c.Link? ==>
          && |Pending(ops1, Binary(c.op))| <= cap
          && OperatorsFit(c.rest, Pending(ops1, Binary(c.op)), cap))
  }

  predicate OperandOperatorsFit<N, V>(o: Operand<N, V>, cap: nat)
    decreases o, 0
  {
    match o
    case Number(_) => true
    case Variable(_) => true
    case Group(c) => OperatorsFit(c, [], cap)
    case Call(c) => OperatorsFit(c, [], cap)
  }

  // ----- When one pop is enough ---------------------------------------------

  /** Popping one operator is not enough: the one below is no weaker than the incoming one either. */
  predicate NeedsSecondPop(ops: seq<OpCode>, incoming: OpCode) {
    && |ops| >= 2
    && Priority(incoming) <= Priority(ops[|ops| - 1])
    && Priority(incoming) <= Priority(ops[|ops| - 2])
  }

  /** No operator of the chain, at any level, arrives where a second pop is needed. */
  predicate OnePopSuffices<N, V>(c: Chain<N, V>, ops: seq<OpCode>)
    decreases c, 1
  {
    var ops1 := OperandPending(c.operand, ops);
    && OperandOnePopSuffices(c.operand)
    && (c.Link? ==>
          && !NeedsSecondPop(ops1, Binary(c.op))
          && OnePopSuffices(c.rest, Pending(ops1, Binary(c.op))))
  }

  predicate OperandOnePopSuffices<N, V>(o: Operand<N, V>)
    decreases o, 0
  {
    match o
    case Number(_) => true
    case Variable(_) => true
    case Group(c) => OnePopSuffices(c, [])
    case Call(c) => OnePopSuffices(c, [])
  }

  // ----- Half-read sums and terms ---------------------------------------------------

  /** The instructions of the half-read sum and term, and the operators that wait for them. */
  function Before<N, V>(sum: Option<Half<N, V>>, term: Option<Half<N, V>>): seq<Instr<N, V>> {
    HalfCode(sum) + HalfCode(term)
  }

  function Waiting<N, V>(sum: Option<Half<N, V>>, term: Option<Half<N, V>>): seq<OpCode> {
    (if sum.Some? then [Binary(sum.value.op)] else []) + (if term.Some? then [Binary(term.value.op)] else [])
  }

  /** The instructions of an open half, and its operation once the other half has come. */
  function HalfCode<N, V>(h: Option<Half<N, V>>): seq<Instr<N, V>> {
    if h.Some? then Postfix(h.value.left) else []
  }

  function HalfExec<N, V>(h: Option<Half<N, V>>): seq<Instr<N, V>> {
    if h.Some? then [Exec(Binary(h.value.op))] else []
  }

  lemma {:induction false} CloseCode<N, V>(h: Option<Half<N, V>>, right: Tree<N, V>)
    ensures Postfix(Close(h, right)) == HalfCode(h) + Postfix(right) + HalfExec(h)
  {
  }

  // ----- Lengths --------------------------------------------------------------

  lemma FlushLength<N, V>(ops: seq<OpCode>)
    ensures |Flush<N, V>(ops)| == |ops|
  {
  }

  lemma {:induction false} EmitLength<N, V>(c: Chain<N, V>, ops: seq<OpCode>)
    ensures |Emit(c, ops)| == Size(c) + |ops|
    decreases c, 1
  {
    OperandCodeLength(c.operand, ops);
    var ops1 := OperandPending(c.operand, ops);
    match c
    case Last(_) => FlushLength<N, V>(ops1);
    case Link(_, op, rest) => EmitLength(rest, Pending(ops1, Binary(op)));
  }

  lemma {:induction false} OperandCodeLength<N, V>(o: Operand<N, V>, ops: seq<OpCode>)
    ensures |OperandCode(o, ops)| + |OperandPending(o, ops)| == OperandSize(o) + |ops|
    decreases o, 0
  {
    match o
    case Number(_) =>
    case Variable(_) =>
    case Group(c) => EmitLength(c, []);
    case Call(c) => EmitLength(c, []);
  }

  lemma {:induction false} ReadingLength<N, V>(sum: Option<Half<N, V>>, term: Option<Half<N, V>>, c: Chain<N, V>)
    ensures |Postfix(ReadingFrom(sum, term, c))| == |Before(sum, term)| + Size(c) + |Waiting(sum, term)|
    decreases c, 1
  {
    OperandReadingLength(c.operand);
    var t := Close(term, OperandReading(c.operand));
    CloseCode(term, OperandReading(c.operand));
    CloseCode(sum, t);
    match c
    case Last(_) =>
    case Link(_, op, rest) =>
      if Multiplicative(op) {
        ReadingLength(sum, Some(Half(t, op)), rest);
      } else {
        ReadingLength(Some(Half(Close(sum, t), op)), None, rest);
      }
  }

  lemma {:induction false} OperandReadingLength<N, V>(o: Operand<N, V>)
    ensures |Postfix(OperandReading(o))| == OperandSize(o)
    decreases o, 0
  {
    match o
    case Number(_) =>
    case Variable(_) =>
    case Group(c) => ReadingLength(None, None, c);
    case Call(c) => ReadingLength(None, None, c);
  }

  // ----- What the usual reading costs -------------------------------------------

  /** The number of stack slots that evaluating a tree takes. */
  function Slots<N, V>(t: Tree<N, V>): nat
    ensures Slots(t) > 0
  {
    match t
    case Leaf(_) => 1
    case Var(_) => 1
    case Bin(_, l, r) => Max(Slots(l), 1 + Slots(r))
    case Int(a) => Slots(a)
  }

  /** The usual reading takes two slots per parenthesis level and one more. */
  lemma {:induction false} ReadingSlots<N, V>(
      sum: Option<Half<N, V>>, term: Option<Half<N, V>>, c: Chain<N, V>, m: nat)
    requires 1 + 2 * Nesting(c) <= m
    requires sum.Some? ==> Slots(sum.value.left) <= m + 2
    requires term.Some? ==> Slots(term.value.left) <= m + 1
    ensures Slots(ReadingFrom(sum, term, c)) <= m + 2
    decreases c, 1
  {
    OperandSlots(c.operand);
    if c.Link? {
      var t := Close(term, OperandReading(c.operand));
      if Multiplicative(c.op) {
        ReadingSlots(sum, Some(Half(t, c.op)), c.rest, m);
      } else {
        ReadingSlots(Some(Half(Close(sum, t), c.op)), None, c.rest, m);
      }
    }
  }

  lemma {:induction false} OperandSlots<N, V>(o: Operand<N, V>)
    ensures Slots(OperandReading(o)) <= 1 + 2 * OperandNesting(o)
    decreases o, 0
  {
    match o
    case Number(_) =>
    case Variable(_) =>
    case Group(c) => ReadingSlots(None, None, c, 1 + 2 * Nesting(c));
    case Call(c) => ReadingSlots(None, None, c, 1 + 2 * Nesting(c));
  }
}
