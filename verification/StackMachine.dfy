/**
  The stack machine of src/mea_eval.c (mea_eval_calcn): it runs emitted
  instructions over a fixed array of 50 slots.  Arithmetic and variable lookup
  are parameters, so nothing here depends on floating point.
 */
module StackMachine {
  import opened Wrappers
  import opened Formula
  import opened Precedence

  const SLOTS := 50

  /** apply may fail (division by zero); trunc is int(); lookup may fail. */
  datatype Machine<!N, !V> = Machine(
    apply: (Op, N, N) -> Option<N>,
    trunc: N -> N,
    lookup: V -> Option<N>)

  /** A slot holds a number or a variable's id; the C union does not say which. */
  datatype Cell<N, V> = Val(value: N) | Ref(ref: V)

  /**
    Why a run stops.  ArithmeticFailure, LookupFailure, Overflow and NotOneValue are
    the machine's error returns; Underflow and Confusion are reads of a slot below the
    stack or of the wrong union member, which the C code does not check.
   */
  datatype Stop = ArithmeticFailure | LookupFailure | Overflow | NotOneValue | Underflow | Confusion

  datatype Stacked<N, V> = Running(cells: seq<Cell<N, V>>) | Stopped(why: Stop)

  datatype Result<N> = Value(value: N) | Failure(why: Stop)

  function Step<N, V>(m: Machine<N, V>, i: Instr<N, V>, s: seq<Cell<N, V>>): Stacked<N, V> {
    match i
    case PushNumber(n) => Running(s + [Val(n)])
    case PushRef(x) => Running(s + [Ref(x)])
    case Exec(Binary(op)) =>
      if |s| < 2 then Stopped(Underflow)
      else if !s[|s| - 1].Val? || !s[|s| - 2].Val? then Stopped(Confusion)
      else
        var d := m.apply(op, s[|s| - 2].value, s[|s| - 1].value);
        if d.None? then Stopped(ArithmeticFailure) else Running(s[..|s| - 2] + [Val(d.value)])
    case Exec(Load) =>
      if |s| < 1 then Stopped(Underflow)
      else if !s[|s| - 1].Ref? then Stopped(Confusion)
      else
        var d := m.lookup(s[|s| - 1].ref);
        if d.None? then Stopped(LookupFailure) else Running(s[..|s| - 1] + [Val(d.value)])
    case Exec(CallInt) =>
      if |s| < 1 then Stopped(Underflow)
      else if !s[|s| - 1].Val? then Stopped(Confusion)
      else Running(s[..|s| - 1] + [Val(m.trunc(s[|s| - 1].value))])
  }

  /** Running instructions; the overflow check comes after each of them. */
  function Execute<N, V>(m: Machine<N, V>, code: seq<Instr<N, V>>, s: seq<Cell<N, V>>): Stacked<N, V> {
    if code == [] then Running(s)
    else
      var r := Step(m, code[0], s);
      if r.Stopped? then r
      else if |r.cells| >= SLOTS then Stopped(Overflow)
      else Execute(m, code[1..], r.cells)
  }

  function Finish<N, V>(r: Stacked<N, V>): Result<N> {
    match r
    case Stopped(why) => Failure(why)
    case Running(s) =>
      if |s| != 1 then Failure(NotOneValue)
      else if s[0].Ref? then Failure(Confusion)
      else Value(s[0].value)
  }

  function Run<N, V>(m: Machine<N, V>, code: seq<Instr<N, V>>): Result<N> {
    Finish(Execute(m, code, []))
  }

  lemma ExecuteAt<N, V>(m: Machine<N, V>, code: seq<Instr<N, V>>, i: nat, s: seq<Cell<N, V>>)
    requires i < |code|
    ensures
      var r := Step(m, code[i], s);
      Execute(m, code[i..], s) ==
        if r.Stopped? then r
        else if |r.cells| >= SLOTS then Stopped(Overflow)
        else Execute(m, code[i + 1..], r.cells)
  {
    hide Step;
    assert code[i..][0] == code[i] && code[i..][1..] == code[i + 1..];
  }

  /** One instruction, on the array and its top index. */
  method StepInPlace<N, V>(m: Machine<N, V>, i: Instr<N, V>, slots: array<Cell<N, V>>, top: nat)
      returns (stop: Option<Stop>, top': nat)
    requires top < slots.Length
    modifies slots
    ensures
      match Step(m, i, old(slots[..top]))
      case Stopped(why) => stop == Some(why)
      case Running(s) => stop == None && top' <= slots.Length && slots[..top'] == s
  {
    ghost var s := slots[..top];
    top' := top;
    match i {
      case PushNumber(n) =>
        slots[top] := Val(n);
        top' := top + 1;
      case PushRef(x) =>
        slots[top] := Ref(x);
        top' := top + 1;
      case Exec(Binary(op)) =>
        if top < 2 { return Some(Underflow), top; }
        if !slots[top - 1].Val? || !slots[top - 2].Val? { return Some(Confusion), top; }
        var d := m.apply(op, slots[top - 2].value, slots[top - 1].value);
        if d.None? { return Some(ArithmeticFailure), top; }
        slots[top - 2] := Val(d.value);
        top' := top - 1;
        assert slots[..top'] == s[..top - 2] + [Val(d.value)];
      case Exec(Load) =>
        if top < 1 { return Some(Underflow), top; }
        if !slots[top - 1].Ref? { return Some(Confusion), top; }
        var d := m.lookup(slots[top - 1].ref);
        if d.None? { return Some(LookupFailure), top; }
        slots[top - 1] := Val(d.value);
        assert slots[..top'] == s[..top - 1] + [Val(d.value)];
      case Exec(CallInt) =>
        if top < 1 { return Some(Underflow), top; }
        if !slots[top - 1].Val? { return Some(Confusion), top; }
        slots[top - 1] := Val(m.trunc(slots[top - 1].value));
        assert slots[..top'] == s[..top - 1] + [slots[top - 1]];
    }
    stop := None;
  }

  /** The machine itself: a loop over the instructions with an array and its top index. */
  method Calc<N(0), V>(m: Machine<N, V>, code: seq<Instr<N, V>>) returns (r: Result<N>)
    ensures r == Run(m, code)
  {
    hide Step;
    var slots := new Cell<N, V>[SLOTS];
    var top := 0;
    assert code[0..] == code && slots[..0] == [];
    for i := 0 to |code|
      invariant 0 <= top < SLOTS
      invariant Execute(m, code, []) == Execute(m, code[i..], slots[..top])
    {
      ExecuteAt(m, code, i, slots[..top]);
      hide Execute;
      var stop;
      stop, top := StepInPlace(m, code[i], slots, top);
      if stop.Some? { return Failure(stop.value); }
      if top >= SLOTS { return Failure(Overflow); }
    }
    assert code[|code|..] == [];
    if top != 1 { return Failure(NotOneValue); }
    if slots[0].Ref? { return Failure(Confusion); }
    assert slots[..top] == [slots[0]];
    return Value(slots[0].value);
  }

  lemma {:induction false} ExecuteConcat<N, V>(
      m: Machine<N, V>, a: seq<Instr<N, V>>, b: seq<Instr<N, V>>, s: seq<Cell<N, V>>)
    ensures Execute(m, a + b, s) ==
            match Execute(m, a, s)
            case Stopped(why) => Stopped(why)
            case Running(s') => Execute(m, b, s')
    decreases |a|
  {
    if a == [] {
      assert a + b == b;
    } else {
      assert (a + b)[0] == a[0] && (a + b)[1..] == a[1..] + b;
      var r := Step(m, a[0], s);
      if r.Running? && |r.cells| < SLOTS {
        ExecuteConcat(m, a[1..], b, r.cells);
      }
    }
  }

  lemma ExecuteNumber<N, V>(m: Machine<N, V>, n: N, s: seq<Cell<N, V>>)
    ensures Execute(m, [PushNumber(n)], s) ==
            if |s| + 1 >= SLOTS then Stopped(Overflow) else Running(s + [Val(n)])
  {
    var code: seq<Instr<N, V>> := [PushNumber(n)];
    assert code[1..] == [];
  }

  lemma ExecuteLoad<N, V>(m: Machine<N, V>, x: V, s: seq<Cell<N, V>>)
    ensures Execute(m, [PushRef(x), Exec(Load)], s) ==
            if |s| + 1 >= SLOTS then Stopped(Overflow)
            else if m.lookup(x).None? then Stopped(LookupFailure)
            else Running(s + [Val(m.lookup(x).value)])
  {
    var code: seq<Instr<N, V>> := [PushRef(x), Exec(Load)];
    var s1 := s + [Ref(x)];
    assert code[1..] == [Exec(Load)] && code[1..][1..] == [];
    assert s1[..|s|] == s;
    assert Step(m, code[0], s) == Running(s1);
    if |s1| < SLOTS && m.lookup(x).Some? {
      assert Execute(m, code[1..], s1) == Execute(m, [], s + [Val(m.lookup(x).value)]);
    }
  }

  // ----- Trees ------------------------------------------------------------------

  /** Direct evaluation of a tree, operands from left to right. */
  function Eval<N, V>(m: Machine<N, V>, t: Tree<N, V>): Result<N> {
    match t
    case Leaf(n) => Value(n)
    case Var(x) =>
      var d := m.lookup(x);
      if d.None? then Failure(LookupFailure) else Value(d.value)
    case Int(a) =>
      var r := Eval(m, a);
      if r.Failure? then r else Value(m.trunc(r.value))
    case Bin(op, l, r) =>
      var a := Eval(m, l);
      if a.Failure? then a else
      var b := Eval(m, r);
      if b.Failure? then b else
      var d := m.apply(op, a.value, b.value);
      if d.None? then Failure(ArithmeticFailure) else Value(d.value)
  }

  function Push<N, V>(s: seq<Cell<N, V>>, r: Result<N>): Stacked<N, V> {
    match r
    case Value(v) => Running(s + [Val(v)])
    case Failure(why) => Stopped(why)
  }

  /** Running a tree's instructions leaves its value on top, and fails exactly as the tree does. */
  lemma {:induction false} ExecutePostfix<N, V>(m: Machine<N, V>, t: Tree<N, V>, s: seq<Cell<N, V>>)
    requires |s| + Slots(t) < SLOTS
    ensures Execute(m, Postfix(t), s) == Push(s, Eval(m, t))
    decreases t
  {
    hide Execute, Step;
    match t
    case Leaf(n) =>
      ExecuteNumber(m, n, s);
    case Var(x) =>
      ExecuteLoad(m, x, s);
    case Int(a) =>
      ExecutePostfix(m, a, s);
      ExecuteConcat(m, Postfix(a), [Exec(CallInt)], s);
      var r := Eval(m, a);
      if r.Value? {
        ExecuteInt(m, r.value, s);
      }
    case Bin(op, l, r) =>
      ExecutePostfix(m, l, s);
      ExecuteConcat(m, Postfix(l) + Postfix(r), [Exec(Binary(op))], s);
      ExecuteConcat(m, Postfix(l), Postfix(r), s);
      var a := Eval(m, l);
      if a.Value? {
        var s1 := s + [Val(a.value)];
        ExecutePostfix(m, r, s1);
        var b := Eval(m, r);
        if b.Value? {
          ExecuteBinary(m, op, a.value, b.value, s);
        }
      }
  }

  lemma ExecuteInt<N, V>(m: Machine<N, V>, a: N, s: seq<Cell<N, V>>)
    requires |s| + 1 < SLOTS
    ensures Execute(m, [Exec(CallInt)], s + [Val(a)]) == Running(s + [Val(m.trunc(a))])
  {
    var code: seq<Instr<N, V>> := [Exec(CallInt)];
    assert code[1..] == [] && (s + [Val(a)])[..|s|] == s;
  }

  lemma ExecuteBinary<N, V>(m: Machine<N, V>, op: Op, a: N, b: N, s: seq<Cell<N, V>>)
    requires |s| + 1 < SLOTS
    ensures Execute(m, [Exec(Binary(op))], s + [Val(a)] + [Val(b)]) ==
            match m.apply(op, a, b)
            case None => Stopped(ArithmeticFailure)
            case Some(v) => Running(s + [Val(v)])
  {
    var code: seq<Instr<N, V>> := [Exec(Binary(op))];
    assert code[1..] == [] && (s + [Val(a)] + [Val(b)])[..|s|] == s;
  }

  lemma RunPostfix<N, V>(m: Machine<N, V>, t: Tree<N, V>)
    requires Slots(t) < SLOTS
    ensures Run(m, Postfix(t)) == Eval(m, t)
  {
    ExecutePostfix(m, t, []);
  }

  // ----- Type safety of emitted instructions ------------------------------------

  function Binaries(ops: seq<OpCode>): nat {
    if ops == [] then 0
    else Binaries(ops[..|ops| - 1]) + if ops[|ops| - 1].Binary? then 1 else 0
  }

  predicate NoLoad(ops: seq<OpCode>) {
    forall i :: 0 <= i < |ops| ==> !ops[i].Load?
  }

  predicate Numbers<N, V>(s: seq<Cell<N, V>>) {
    forall i :: 0 <= i < |s| ==> s[i].Val?
  }

  /** Either one of the checked failures, or n numbers on the stack. */
  predicate Sound<N, V>(r: Stacked<N, V>, n: nat) {
    match r
    case Stopped(why) => why.ArithmeticFailure? || why.LookupFailure? || why.Overflow?
    case Running(s) => |s| == n && Numbers(s)
  }

  lemma {:induction false} BinariesOfLonger(ops: seq<OpCode>, op: OpCode)
    ensures Binaries(ops + [op]) == Binaries(ops) + if op.Binary? then 1 else 0
    ensures Binaries([]) == 0
  {
    assert (ops + [op])[..|ops|] == ops;
  }

  /** One operator: a binary one needs two numbers, int() needs one. */
  lemma ExecSound<N, V>(m: Machine<N, V>, op: OpCode, s: seq<Cell<N, V>>)
    requires Numbers(s) && !op.Load?
    requires |s| >= if op.Binary? then 2 else 1
    ensures Sound(Execute(m, [Exec(op)], s), |s| - if op.Binary? then 1 else 0)
  {
    var i: Instr<N, V> := Exec(op);
    assert [i][1..] == [];
    var r := Step(m, i, s);
    assert Execute(m, [i], s) ==
           if r.Stopped? then r else if |r.cells| >= SLOTS then Stopped(Overflow) else Execute(m, [], r.cells);
  }

  lemma ExecuteNothing<N, V>(m: Machine<N, V>, s: seq<Cell<N, V>>)
    ensures Execute(m, [], s) == Running(s)
  {
  }

  lemma PendingNoLoad(ops: seq<OpCode>, op: OpCode)
    requires NoLoad(ops) && !op.Load?
    ensures NoLoad(Pending(ops, op))
  {
  }

  /** An operator that arrives keeps one number per pending binary operator. */
  lemma {:induction false} EmittedSound<N, V>(m: Machine<N, V>, ops: seq<OpCode>, op: OpCode, s: seq<Cell<N, V>>)
    requires NoLoad(ops) && !op.Load? && Numbers(s) && Binaries(ops) + 1 <= |s|
    ensures NoLoad(Pending(ops, op))
    ensures
      var d := if op.Binary? then 1 else 0;
      Sound(Execute(m, Emitted(ops, op), s), |s| - Binaries(ops) + Binaries(Pending(ops, op)) - d)
  {
    hide Step, Execute;
    assert Execute(m, [], s) == Running(s) by { ExecuteNothing(m, s); }
    if Emitted<N, V>(ops, op) == [] {
      BinariesOfLonger(ops, op);
    } else {
      BinariesOfLonger(ops[..|ops| - 1], op);
      ExecSound(m, ops[|ops| - 1], s);
    }
  }

  lemma {:induction false} FlushSound<N, V>(m: Machine<N, V>, ops: seq<OpCode>, s: seq<Cell<N, V>>)
    requires NoLoad(ops) && Numbers(s) && Binaries(ops) + 1 <= |s|
    ensures Sound(Execute(m, Flush(ops), s), |s| - Binaries(ops))
    decreases |ops|
  {
    if ops != [] {
      var op, below := ops[|ops| - 1], ops[..|ops| - 1];
      ExecSound(m, op, s);
      ExecuteConcat(m, [Exec(op)], Flush(below), s);
      var r := Execute(m, [Exec(op)], s);
      if r.Running? {
        FlushSound(m, below, r.cells);
      }
    }
  }

  /** A level, run with one number per pending operator, ends with those reduced to one number. */
  lemma {:induction false} EmitSound<N, V>(m: Machine<N, V>, c: Chain<N, V>, ops: seq<OpCode>, s: seq<Cell<N, V>>)
    requires NoLoad(ops) && Numbers(s) && Binaries(ops) <= |s|
    ensures Sound(Execute(m, Emit(c, ops), s), |s| - Binaries(ops) + 1)
    decreases c, 1
  {
    hide Execute, Step, Emitted, Pending, Binaries, Flush, OperandCode, OperandPending;
    var head := OperandCode(c.operand, ops);
    var ops1 := OperandPending(c.operand, ops);
    OperandSound(m, c.operand, ops, s);
    var r := Execute(m, head, s);
    match c
    case Last(_) =>
      ExecuteConcat(m, head, Flush(ops1), s);
      if r.Running? {
        FlushSound(m, ops1, r.cells);
      }
    case Link(_, op, rest) =>
      var e := Emitted<N, V>(ops1, Binary(op));
      var ops2 := Pending(ops1, Binary(op));
      ExecuteConcat(m, head + e, Emit(rest, ops2), s);
      ExecuteConcat(m, head, e, s);
      if r.Running? {
        EmittedSound(m, ops1, Binary(op), r.cells);
        var r2 := Execute(m, e, r.cells);
        if r2.Running? {
          EmitSound(m, rest, ops2, r2.cells);
        }
      }
  }

  lemma {:induction false} OperandSound<N, V>(m: Machine<N, V>, o: Operand<N, V>, ops: seq<OpCode>, s: seq<Cell<N, V>>)
    requires NoLoad(ops) && Numbers(s) && Binaries(ops) <= |s|
    ensures NoLoad(OperandPending(o, ops))
    ensures Sound(Execute(m, OperandCode(o, ops), s),
                  |s| + 1 - Binaries(ops) + Binaries(OperandPending(o, ops)))
    decreases o, 0
  {
    hide Execute, Step, Emitted, Pending, Binaries, Emit;
    BinariesOfLonger([], CallInt);
    match o
    case Number(n) =>
      ExecuteNumber(m, n, s);
    case Variable(x) =>
      ExecuteLoad(m, x, s);
    case Group(c) =>
      EmitSound(m, c, [], s);
    case Call(c) =>
      EmitSound(m, c, [], s);
      PendingNoLoad(ops, CallInt);
      ExecuteConcat(m, Emit(c, []), Emitted(ops, CallInt), s);
      var r := Execute(m, Emit(c, []), s);
      if r.Running? {
        EmittedSound(m, ops, CallInt, r.cells);
      }
  }

  /**
    Type safety, whatever the precedence shape: a run never reads below its stack or
    the wrong kind of slot, and a run that meets no failing operation, lookup or
    overflow ends with exactly one number.
   */
  lemma {:induction false} RunIsSafe<N, V>(m: Machine<N, V>, c: Chain<N, V>)
    ensures
      match Run(m, Emit(c, []))
      case Value(_) => true
      case Failure(why) => why.ArithmeticFailure? || why.LookupFailure? || why.Overflow?
  {
    hide Execute, Emit;
    BinariesOfLonger([], CallInt);
    EmitSound(m, c, [], []);
  }

  // ----- The machine over the free algebra ---------------------------------------

  /** Arithmetic that builds the tree instead of computing: no operation ever fails. */
  function Free<N, V>(): Machine<Tree<N, V>, V> {
    Machine((op, a, b) => Some(Bin(op, a, b)), a => Int(a), x => Some(Var(x)))
  }

  /** The same instructions, with numbers as leaves. */
  function Lift<N, V>(code: seq<Instr<N, V>>): seq<Instr<Tree<N, V>, V>>
    ensures |Lift(code)| == |code|
  {
    if code == [] then [] else [LiftOne(code[0])] + Lift(code[1..])
  }

  function LiftOne<N, V>(i: Instr<N, V>): Instr<Tree<N, V>, V> {
    match i
    case PushNumber(n) => PushNumber(Leaf(n))
    case PushRef(x) => PushRef(x)
    case Exec(op) => Exec(op)
  }

  /** The instructions that a stack of trees stands for. */
  function Unbuilt<N, V>(s: seq<Cell<Tree<N, V>, V>>): seq<Instr<N, V>> {
    if s == [] then []
    else Unbuilt(s[..|s| - 1]) + CellCode(s[|s| - 1])
  }

  function CellCode<N, V>(c: Cell<Tree<N, V>, V>): seq<Instr<N, V>> {
    match c
    case Val(t) => Postfix(t)
    case Ref(x) => [PushRef(x)]
  }

  lemma UnbuiltOfLonger<N, V>(s: seq<Cell<Tree<N, V>, V>>, c: Cell<Tree<N, V>, V>)
    ensures Unbuilt(s + [c]) == Unbuilt(s) + CellCode(c)
  {
    assert (s + [c])[..|s|] == s;
  }

  /** Over the free algebra, a step adds its own instruction to what the stack stands for. */
  lemma {:induction false} FreeStep<N, V>(i: Instr<N, V>, s: seq<Cell<Tree<N, V>, V>>)
    requires Step(Free<N, V>(), LiftOne(i), s).Running?
    ensures Unbuilt(Step(Free<N, V>(), LiftOne(i), s).cells) == Unbuilt(s) + [i]
  {
    match i
    case PushNumber(n) => UnbuiltOfLonger(s, Val(Leaf(n)));
    case PushRef(x) => UnbuiltOfLonger(s, Ref(x));
    case Exec(Load) => FreeLoad(s);
    case Exec(CallInt) => FreeCall(s);
    case Exec(Binary(op)) => FreeBinary(op, s);
  }

  lemma {:induction false} FreeLoad<N, V>(s: seq<Cell<Tree<N, V>, V>>)
    requires |s| > 0 && s[|s| - 1].Ref?
    ensures Unbuilt(s[..|s| - 1] + [Val(Var(s[|s| - 1].ref))]) == Unbuilt(s) + [Exec(Load)]
  {
    UnbuiltOfLonger(s[..|s| - 1], Val(Var(s[|s| - 1].ref)));
  }

  lemma {:induction false} FreeCall<N, V>(s: seq<Cell<Tree<N, V>, V>>)
    requires |s| > 0 && s[|s| - 1].Val?
    ensures Unbuilt(s[..|s| - 1] + [Val(Int(s[|s| - 1].value))]) == Unbuilt(s) + [Exec(CallInt)]
  {
    UnbuiltOfLonger(s[..|s| - 1], Val(Int(s[|s| - 1].value)));
  }

  lemma {:induction false} FreeBinary<N, V>(op: Op, s: seq<Cell<Tree<N, V>, V>>)
    requires |s| > 1 && s[|s| - 1].Val? && s[|s| - 2].Val?
    ensures Unbuilt(s[..|s| - 2] + [Val(Bin(op, s[|s| - 2].value, s[|s| - 1].value))]) ==
            Unbuilt(s) + [Exec(Binary(op))]
  {
    hide Unbuilt;
    var a, b, below := s[|s| - 2], s[|s| - 1], s[..|s| - 2];
    var t := Bin(op, a.value, b.value);
    UnbuiltOfLonger(below, Val(t));
    UnbuiltOfLonger(below, a);
    UnbuiltOfLonger(below + [a], b);
    assert s == below + [a] + [b];
    Regroup(Unbuilt(below), Postfix(a.value), Postfix(b.value), [Exec(Binary(op))]);
  }

  lemma {:induction false} FreeExecute<N, V>(code: seq<Instr<N, V>>, s: seq<Cell<Tree<N, V>, V>>)
    requires Execute(Free<N, V>(), Lift(code), s).Running?
    ensures Unbuilt(Execute(Free<N, V>(), Lift(code), s).cells) == Unbuilt(s) + code
    decreases |code|
  {
    if code != [] {
      FreeStep(code[0], s);
      FreeExecute(code[1..], Step(Free<N, V>(), LiftOne(code[0]), s).cells);
      assert Lift(code)[1..] == Lift(code[1..]);
    }
  }

  /** A run over the free algebra returns the one tree whose instructions were run. */
  lemma {:induction false} FreeRun<N, V>(code: seq<Instr<N, V>>, t: Tree<N, V>)
    requires Run(Free<N, V>(), Lift(code)) == Value(t)
    ensures code == Postfix(t)
  {
    var r := Execute(Free<N, V>(), Lift(code), []);
    FreeExecute(code, []);
    UnbuiltOfLonger([], r.cells[0]);
    assert r.cells == [] + [r.cells[0]];
    assert Unbuilt<N, V>([]) + code == code;
  }

  // ----- How high the stack gets --------------------------------------------------------------

  /** Numbers pushed one after the other: the fiftieth is one too many. */
  lemma {:induction false} PushesOverflowExactly<N, V>(m: Machine<N, V>, ns: seq<N>)
    ensures Execute(m, Pushes(ns), []) ==
            if |ns| >= 50 then Stopped(Overflow) else Running(seq(|ns|, i requires 0 <= i < |ns| => Val(ns[i])))
  {
    PushesFrom(m, ns, 0);
    var code: seq<Instr<N, V>> := Pushes(ns);
    assert code[0..] == code;
  }

  function Pushes<N, V>(ns: seq<N>): seq<Instr<N, V>> {
    seq(|ns|, i requires 0 <= i < |ns| => PushNumber(ns[i]))
  }

  lemma {:induction false} PushesFrom<N, V>(m: Machine<N, V>, ns: seq<N>, k: nat)
    requires k <= |ns| && k < 50
    ensures
      var vals: seq<Cell<N, V>> := seq(|ns|, i requires 0 <= i < |ns| => Val(ns[i]));
      Execute(m, Pushes(ns)[k..], vals[..k]) == if |ns| >= 50 then Stopped(Overflow) else Running(vals)
    decreases |ns| - k
  {
    var vals: seq<Cell<N, V>> := seq(|ns|, i requires 0 <= i < |ns| => Val(ns[i]));
    if k < |ns| {
      ExecuteAt(m, Pushes(ns), k, vals[..k]);
      assert vals[..k] + [Val(ns[k])] == vals[..k + 1];
      if k + 1 < 50 {
        PushesFrom(m, ns, k + 1);
      }
    } else {
      assert Pushes<N, V>(ns)[k..] == [] && vals[..k] == vals;
    }
  }
}
