/**
  The precedence law of src/mea_eval.c: for which formulas the emitted instructions are those
  of the usual reading, and how many operators then wait at a level.
 */
module Precedence {
  import opened Wrappers
  import opened Formula

  // ----- Emission against the usual reading -----------------------------------

  predicate ProperHalves<N, V>(sum: Option<Half<N, V>>, term: Option<Half<N, V>>) {
    && (sum.Some? ==> !Multiplicative(sum.value.op))
    && (term.Some? ==> Multiplicative(term.value.op))
  }

  predicate IsPrefix<T(==)>(a: seq<T>, b: seq<T>) {
    |a| <= |b| && a == b[..|a|]
  }

  lemma PrefixTrans<T>(a: seq<T>, b: seq<T>, c: seq<T>)
    requires IsPrefix(a, b) && IsPrefix(b, c)
    ensures IsPrefix(a, c)
  {
    assert a == c[..|b|][..|a|];
  }

  lemma PrefixOfConcat<T>(a: seq<T>, b: seq<T>, c: seq<T>)
    ensures IsPrefix(a, a + b) && IsPrefix(a, a + b + c)
  {
    assert (a + b + c)[..|a|] == (a + b)[..|a|] == a;
  }

  lemma FrontClosed<N, V>(sum: Option<Half<N, V>>, term: Option<Half<N, V>>, x: Tree<N, V>)
    ensures
      var front, t := Before(sum, term) + Postfix(x), Close(term, x);
      IsPrefix(front, HalfCode(sum) + Postfix(t)) && IsPrefix(front, Postfix(Close(sum, t)))
  {
    hide IsPrefix, Postfix, Close;
    CloseCode(term, x);
    var front, t := Before(sum, term) + Postfix(x), Close(term, x);
    assert HalfCode(sum) + Postfix(t) == front + HalfExec(term);
    CloseCode(sum, t);
    PrefixOfConcat(front, HalfExec(term), HalfExec(sum));
  }

  /** What has been read is at the front of the next halves' instructions. */
  lemma {:induction false} FrontNext<N, V>(sum: Option<Half<N, V>>, term: Option<Half<N, V>>, x: Tree<N, V>, op: Op)
    ensures IsPrefix(Before(sum, term) + Postfix(x), Before(NextSum(sum, term, x, op), NextTerm(term, x, op)))
  {
    var t := Close(term, x);
    FrontClosed(sum, term, x);
    hide IsPrefix, Postfix, Close;
    if Multiplicative(op) {
      assert Before(sum, Some(Half(t, op))) == HalfCode(sum) + Postfix(t);
    } else {
      assert Before(Some(Half(Close(sum, t), op)), None) == Postfix(Close(sum, t));
    }
  }

  lemma ReadingLast<N, V>(sum: Option<Half<N, V>>, term: Option<Half<N, V>>, c: Chain<N, V>)
    requires c.Last?
    ensures ReadingFrom(sum, term, c) == Close(sum, Close(term, OperandReading(c.operand)))
  {
  }

  lemma ReadingNext<N, V>(sum: Option<Half<N, V>>, term: Option<Half<N, V>>, c: Chain<N, V>)
    requires c.Link?
    ensures
      var x := OperandReading(c.operand);
      ReadingFrom(sum, term, c) == ReadingFrom(NextSum(sum, term, x, c.op), NextTerm(term, x, c.op), c.rest)
  {
  }

  /** What has been read stays at the front of the tree's instructions. */
  lemma {:induction false} ReadingKeepsFront<N, V>(sum: Option<Half<N, V>>, term: Option<Half<N, V>>, c: Chain<N, V>)
    ensures IsPrefix(Before(sum, term) + Postfix(OperandReading(c.operand)), Postfix(ReadingFrom(sum, term, c)))
    decreases c
  {
    hide *;
    var x := OperandReading(c.operand);
    var front := Before(sum, term) + Postfix(x);
    match c
    case Last(_) =>
      FrontClosed(sum, term, x);
      ReadingLast(sum, term, c);
    case Link(_, op, rest) =>
      var sum', term' := NextSum(sum, term, x, op), NextTerm(term, x, op);
      var now := Before(sum', term');
      ReadingKeepsFront(sum', term', rest);
      FrontNext(sum, term, x, op);
      PrefixOfConcat(now, Postfix(OperandReading(rest.operand)), []);
      ReadingNext(sum, term, c);
      PrefixTrans(now, now + Postfix(OperandReading(rest.operand)), Postfix(ReadingFrom(sum, term, c)));
      PrefixTrans(front, now, Postfix(ReadingFrom(sum, term, c)));
  }

  /** A level starts with an operand, and an operand with a push. */
  lemma {:induction false} EmitStartsWithPush<N, V>(c: Chain<N, V>, ops: seq<OpCode>)
    ensures |Emit(c, ops)| > 0 && !Emit(c, ops)[0].Exec?
    decreases c
  {
    match c.operand
    case Number(_) =>
    case Variable(_) =>
    case Group(inner) => EmitStartsWithPush(inner, []);
    case Call(arg) => EmitStartsWithPush(arg, []);
  }

  /** The instructions of an operand on its own. */
  function Alone<N, V>(o: Operand<N, V>): seq<Instr<N, V>> {
    if o.Call? then Emit(o.arg, []) + [Exec(CallInt)] else OperandCode(o, [])
  }

  /** What an operator emits after operand o, and what then waits: a call is emitted at once. */
  function EmittedAfter<N, V>(o: Operand<N, V>, w: seq<OpCode>, op: Op): seq<Instr<N, V>> {
    if o.Call? then [] else Emitted(w, Binary(op))
  }

  function PendingAfter<N, V>(o: Operand<N, V>, w: seq<OpCode>, op: Op): seq<OpCode> {
    if o.Call? then w + [Binary(op)] else Pending(w, Binary(op))
  }

  lemma {:induction false} OperandAt<N, V>(o: Operand<N, V>, w: seq<OpCode>)
    requires |w| > 0 ==> w[|w| - 1].Binary?
    ensures OperandPending(o, w) == w + if o.Call? then [CallInt] else []
    ensures OperandCode(o, w) == OperandCode(o, [])
    ensures OperandCode(o, w) + (if o.Call? then [Exec(CallInt)] else []) == Alone(o)
  {
  }

  lemma {:induction false} OperatorAt<N, V>(o: Operand<N, V>, w: seq<OpCode>, op: Op)
    ensures
      var ops1 := w + if o.Call? then [CallInt] else [];
      && Emitted(ops1, Binary(op)) ==
         (if o.Call? then [Exec(CallInt)] else []) + EmittedAfter(o, w, op)
      && Pending(ops1, Binary(op)) == PendingAfter(o, w, op)
      && Flush<N, V>(ops1) == (if o.Call? then [Exec(CallInt)] else []) + Flush(w)
  {
    if o.Call? {
      assert (w + [CallInt])[..|w|] == w;
    } else {
      assert w + [] == w;
    }
  }

  lemma {:induction false} EmitAfterOperand<N, V>(c: Chain<N, V>, w: seq<OpCode>)
    requires |w| > 0 ==> w[|w| - 1].Binary?
    ensures c.Last? ==> Emit(c, w) == Alone(c.operand) + Flush(w)
    ensures c.Link? ==>
              Emit(c, w) == Alone(c.operand) + EmittedAfter(c.operand, w, c.op)
                              + Emit(c.rest, PendingAfter(c.operand, w, c.op))
  {
    var o := c.operand;
    OperandAt(o, w);
    match c
    case Last(_) =>
      OperatorAt(o, w, Plus);
      LastAlone(o, w);
    case Link(_, op, rest) =>
      OperatorAt(o, w, op);
      LinkAlone(o, w, op, Emit(rest, PendingAfter(o, w, op)));
  }

  lemma {:induction false} LastAlone<N, V>(o: Operand<N, V>, w: seq<OpCode>)
    requires |w| > 0 ==> w[|w| - 1].Binary?
    ensures OperandCode(o, w) + Flush(OperandPending(o, w)) == Alone(o) + Flush(w)
  {
    hide *;
    OperandAt(o, w);
    OperatorAt(o, w, Plus);
    var call: seq<Instr<N, V>> := if o.Call? then [Exec(CallInt)] else [];
    assert OperandCode(o, w) + (call + Flush(w)) == OperandCode(o, w) + call + Flush(w);
  }

  lemma {:induction false} LinkAlone<N, V>(o: Operand<N, V>, w: seq<OpCode>, op: Op, rest: seq<Instr<N, V>>)
    requires |w| > 0 ==> w[|w| - 1].Binary?
    ensures OperandCode(o, w) + Emitted(OperandPending(o, w), Binary(op)) + rest ==
            Alone(o) + EmittedAfter(o, w, op) + rest
  {
    hide *;
    OperandAt(o, w);
    OperatorAt(o, w, op);
    var call: seq<Instr<N, V>> := if o.Call? then [Exec(CallInt)] else [];
    assert OperandCode(o, w) + (call + EmittedAfter(o, w, op)) == OperandCode(o, w) + call + EmittedAfter(o, w, op);
  }

  /** After the same front, sequences that start differently differ. */
  lemma PrefixesDiffer<T>(front: seq<T>, a: seq<T>, b: seq<T>, p: seq<T>, q: seq<T>)
    requires IsPrefix(a, p) && IsPrefix(front + b, q)
    requires |a| == |b| && a != b
    ensures front + p != q
  {
    var i :| 0 <= i < |a| && a[i] != b[i];
    assert (front + p)[|front| + i] == a[i];
    assert (front + b)[|front| + i] == b[i];
  }

  /** The operand is right on its own exactly when one pop suffices inside it. */
  lemma {:induction false} OperandAgainstReading<N, V>(o: Operand<N, V>)
    ensures OperandOnePopSuffices(o) <==> Alone(o) == Postfix(OperandReading(o))
    ensures |Alone(o)| == |Postfix(OperandReading(o))|
    decreases o, 0
  {
    OperandCodeLength(o, []);
    OperandReadingLength(o);
    match o
    case Number(_) =>
    case Variable(_) =>
    case Group(c) =>
      EmitAgainstReading(None, None, c);
      assert Before<N, V>(None, None) + Emit(c, []) == Emit(c, []);
    case Call(c) =>
      EmitAgainstReading(None, None, c);
      assert Before<N, V>(None, None) + Emit(c, []) == Emit(c, []);
      EmitLength(c, []);
      assert Alone(o)[..|Emit(c, [])|] == Emit(c, []);
      assert Postfix(OperandReading(o))[..|Emit(c, [])|] == Postfix(ReadingFrom(None, None, c));
  }

  /** The halves after one more operand and operator. */
  function NextSum<N, V>(sum: Option<Half<N, V>>, term: Option<Half<N, V>>, x: Tree<N, V>, op: Op): Option<Half<N, V>> {
    if Multiplicative(op) then sum else Some(Half(Close(sum, Close(term, x)), op))
  }

  function NextTerm<N, V>(term: Option<Half<N, V>>, x: Tree<N, V>, op: Op): Option<Half<N, V>> {
    if Multiplicative(op) then Some(Half(Close(term, x), op)) else None
  }

  /** One operator further: the code of the next halves, and the operators that wait for them. */
  lemma {:induction false} NextHalves<N, V>(
      sum: Option<Half<N, V>>, term: Option<Half<N, V>>, x: Tree<N, V>, op: Op)
    requires ProperHalves(sum, term)
    ensures
      var sum', term' := NextSum(sum, term, x, op), NextTerm(term, x, op);
      && ProperHalves(sum', term')
      && Before(sum', term') == Before(sum, term) + Postfix(x) + HalfExec(term)
           + (if Multiplicative(op) then [] else HalfExec(sum))
      && Waiting(sum', term') ==
           (if Multiplicative(op) && sum.Some? then [Binary(sum.value.op)] else []) + [Binary(op)]
  {
    var t := Close(term, x);
    hide Postfix, Close;
    CloseCode(term, x);
    CloseCode(sum, t);
    var bx := Before(sum, term) + Postfix(x);
    assert HalfCode(sum) + Postfix(t) == bx + HalfExec(term);
    if Multiplicative(op) {
      assert Before(sum, Some(Half(t, op))) == HalfCode(sum) + Postfix(t);
    } else {
      assert Before(Some(Half(Close(sum, t), op)), None) == Postfix(Close(sum, t));
    }
  }

  /** When one pop is enough, the array follows the open halves. */
  lemma {:induction false} HalvesStep<N, V>(
      sum: Option<Half<N, V>>, term: Option<Half<N, V>>, x: Tree<N, V>, op: Op, call: bool)
    requires ProperHalves(sum, term)
    requires !NeedsSecondPop(Waiting(sum, term) + if call then [CallInt] else [], Binary(op))
    ensures
      var w, sum', term' := Waiting(sum, term), NextSum(sum, term, x, op), NextTerm(term, x, op);
      && Waiting(sum', term') == (if call then w + [Binary(op)] else Pending(w, Binary(op)))
      && Before(sum', term') ==
         Before(sum, term) + Postfix(x) + if call then [] else Emitted(w, Binary(op))
  {
    hide Before, NextSum, NextTerm, Postfix;
    NextHalves(sum, term, x, op);
    ExecsStep(sum, term, op, call);
    var execs := HalfExec(term) + (if Multiplicative(op) then [] else HalfExec(sum));
    assert Before(sum, term) + Postfix(x) + HalfExec(term) + (if Multiplicative(op) then [] else HalfExec(sum)) ==
           Before(sum, term) + Postfix(x) + execs;
  }

  /** Without a second pop, what is emitted is what the usual reading closes. */
  lemma {:induction false} ExecsStep<N, V>(sum: Option<Half<N, V>>, term: Option<Half<N, V>>, op: Op, call: bool)
    requires ProperHalves(sum, term)
    requires !NeedsSecondPop(Waiting(sum, term) + if call then [CallInt] else [], Binary(op))
    ensures
      var w := Waiting(sum, term);
      && HalfExec(term) + (if Multiplicative(op) then [] else HalfExec(sum)) ==
         (if call then [] else Emitted(w, Binary(op)))
      && (if Multiplicative(op) && sum.Some? then [Binary(sum.value.op)] else []) + [Binary(op)] ==
         (if call then w + [Binary(op)] else Pending(w, Binary(op)))
  {
    var w := Waiting(sum, term);
    assert w + [] == w;
  }

  /** Where a second pop is needed, the usual reading goes on with an operation. */
  lemma {:induction false} UsualGoesOn<N, V>(
      sum: Option<Half<N, V>>, term: Option<Half<N, V>>, x: Tree<N, V>, op: Op, call: bool)
    requires ProperHalves(sum, term)
    requires NeedsSecondPop(Waiting(sum, term) + if call then [CallInt] else [], Binary(op))
    ensures
      var usual := Before(NextSum(sum, term, x, op), NextTerm(term, x, op));
      var at := |Before(sum, term)| + |Postfix(x)| + if call then 0 else 1;
      at < |usual| && usual[at].Exec?
  {
    NextHalves(sum, term, x, op);
    assert Waiting(sum, term) + [] == Waiting(sum, term);
    var execs := HalfExec(term) + (if Multiplicative(op) then [] else HalfExec(sum));
    assert |execs| > if call then 0 else 1;
    assert Before(NextSum(sum, term, x, op), NextTerm(term, x, op)) == Before(sum, term) + Postfix(x) + execs;
  }

  /** A level is right exactly when one pop suffices at each of its operators. */
  lemma {:induction false} EmitAgainstReading<N, V>(
      sum: Option<Half<N, V>>, term: Option<Half<N, V>>, c: Chain<N, V>)
    requires ProperHalves(sum, term)
    ensures OnePopSuffices(c, Waiting(sum, term)) <==>
            Before(sum, term) + Emit(c, Waiting(sum, term)) == Postfix(ReadingFrom(sum, term, c))
    decreases c, 1
  {
    var o, w := c.operand, Waiting(sum, term);
    OperandAgainstReading(o);
    OperandAt(o, w);
    if !OperandOnePopSuffices(o) {
      OperandSpoilsLevel(sum, term, c);
    } else if c.Last? {
      LastAgainstReading(sum, term, c);
    } else if NeedsSecondPop(OperandPending(o, w), Binary(c.op)) {
      SecondPopMissed(sum, term, c);
    } else {
      var x := OperandReading(o);
      var sum', term' := NextSum(sum, term, x, c.op), NextTerm(term, x, c.op);
      LinkStep(sum, term, c);
      EmitAgainstReading(sum', term', c.rest);
      assert OnePopSuffices(c, w) == OnePopSuffices(c.rest, Waiting(sum', term'));
    }
  }

  lemma {:induction false} OperandSpoilsLevel<N, V>(
      sum: Option<Half<N, V>>, term: Option<Half<N, V>>, c: Chain<N, V>)
    requires ProperHalves(sum, term)
    requires |Alone(c.operand)| == |Postfix(OperandReading(c.operand))|
    requires Alone(c.operand) != Postfix(OperandReading(c.operand))
    ensures Before(sum, term) + Emit(c, Waiting(sum, term)) != Postfix(ReadingFrom(sum, term, c))
  {
    hide *;
    var o, w, b := c.operand, Waiting(sum, term), Before(sum, term);
    var x := Postfix(OperandReading(o));
    WaitingAreBinary(sum, term);
    EmitAfterOperand(c, w);
    ReadingKeepsFront(sum, term, c);
    if c.Last? {
      PrefixOfConcat(Alone(o), Flush(w), []);
    } else {
      PrefixOfConcat(Alone(o), EmittedAfter(o, w, c.op), Emit(c.rest, PendingAfter(o, w, c.op)));
    }
    PrefixesDiffer(b, Alone(o), x, Emit(c, w), Postfix(ReadingFrom(sum, term, c)));
  }

  lemma WaitingAreBinary<N, V>(sum: Option<Half<N, V>>, term: Option<Half<N, V>>)
    ensures var w := Waiting(sum, term); |w| > 0 ==> w[|w| - 1].Binary?
  {
  }

  lemma {:induction false} LastAgainstReading<N, V>(
      sum: Option<Half<N, V>>, term: Option<Half<N, V>>, c: Chain<N, V>)
    requires ProperHalves(sum, term) && c.Last?
    requires Alone(c.operand) == Postfix(OperandReading(c.operand))
    ensures Before(sum, term) + Emit(c, Waiting(sum, term)) == Postfix(ReadingFrom(sum, term, c))
  {
    hide *;
    var w := Waiting(sum, term);
    WaitingAreBinary(sum, term);
    EmitAfterOperand(c, w);
    FlushWaiting(sum, term);
    var x := OperandReading(c.operand);
    CloseCode(term, x);
    CloseCode(sum, Close(term, x));
    ReadingLast(sum, term, c);
    BeforeIs(sum, term);
    Nested(HalfCode(sum), HalfCode(term), Postfix(x), HalfExec(term), HalfExec(sum));
  }

  lemma BeforeIs<N, V>(sum: Option<Half<N, V>>, term: Option<Half<N, V>>)
    ensures Before(sum, term) == HalfCode(sum) + HalfCode(term)
  {
  }

  lemma Nested<T>(a: seq<T>, b: seq<T>, c: seq<T>, d: seq<T>, e: seq<T>)
    ensures a + b + (c + (d + e)) == a + (b + c + d) + e
  {
    assert a + (b + c + d) == a + b + c + d;
    assert a + b + (c + (d + e)) == a + b + c + d + e;
  }

  lemma {:induction false} FlushWaiting<N, V>(sum: Option<Half<N, V>>, term: Option<Half<N, V>>)
    ensures Flush<N, V>(Waiting(sum, term)) ==
            HalfExec(term) + HalfExec(sum)
  {
    var w := Waiting(sum, term);
    if |w| == 2 {
      assert w[..1] == [w[0]] && w[..1][..0] == [];
      assert Flush<N, V>(w[..1]) == [Exec(w[0])] + Flush(w[..1][..0]);
    } else if |w| == 1 {
      assert w[..0] == [];
    }
  }

  /** One operator further, when one pop was enough. */
  lemma {:induction false} LinkStep<N, V>(sum: Option<Half<N, V>>, term: Option<Half<N, V>>, c: Chain<N, V>)
    requires ProperHalves(sum, term) && c.Link?
    requires Alone(c.operand) == Postfix(OperandReading(c.operand))
    requires !NeedsSecondPop(Waiting(sum, term) + if c.operand.Call? then [CallInt] else [], Binary(c.op))
    ensures
      var x := OperandReading(c.operand);
      var sum', term' := NextSum(sum, term, x, c.op), NextTerm(term, x, c.op);
      && Waiting(sum', term') == Pending(OperandPending(c.operand, Waiting(sum, term)), Binary(c.op))
      && Before(sum, term) + Emit(c, Waiting(sum, term)) ==
         Before(sum', term') + Emit(c.rest, Waiting(sum', term'))
      && ReadingFrom(sum, term, c) == ReadingFrom(sum', term', c.rest)
      && ProperHalves(sum', term')
  {
    hide *;
    var o, w, b := c.operand, Waiting(sum, term), Before(sum, term);
    var x := OperandReading(o);
    WaitingAreBinary(sum, term);
    EmitAfterOperand(c, w);
    OperandAt(o, w);
    OperatorAt(o, w, c.op);
    HalvesStep(sum, term, x, c.op, o.Call?);
    AfterIs(o, w, c.op);
    ReadingNext(sum, term, c);
    NextProper(sum, term, x, c.op);
    Regroup(b, Postfix(x), EmittedAfter(o, w, c.op), Emit(c.rest, PendingAfter(o, w, c.op)));
  }

  lemma AfterIs<N, V>(o: Operand<N, V>, w: seq<OpCode>, op: Op)
    ensures EmittedAfter(o, w, op) == if o.Call? then [] else Emitted(w, Binary(op))
    ensures PendingAfter(o, w, op) == if o.Call? then w + [Binary(op)] else Pending(w, Binary(op))
  {
  }

  lemma NextProper<N, V>(sum: Option<Half<N, V>>, term: Option<Half<N, V>>, x: Tree<N, V>, op: Op)
    requires ProperHalves(sum, term)
    ensures ProperHalves(NextSum(sum, term, x, op), NextTerm(term, x, op))
  {
  }

  lemma Regroup<T>(a: seq<T>, b: seq<T>, c: seq<T>, d: seq<T>)
    ensures a + (b + c + d) == (a + b + c) + d
    ensures |d| > 0 ==> (a + (b + c + d))[|a| + |b| + |c|] == d[0]
  {
    assert a + (b + c + d) == (a + b + c) + d;
  }

  /** Where a second pop is missing, an operand comes where the usual reading has an operation. */
  lemma {:induction false} SecondPopMissed<N, V>(sum: Option<Half<N, V>>, term: Option<Half<N, V>>, c: Chain<N, V>)
    requires ProperHalves(sum, term) && c.Link?
    requires |Alone(c.operand)| == |Postfix(OperandReading(c.operand))|
    requires NeedsSecondPop(Waiting(sum, term) + if c.operand.Call? then [CallInt] else [], Binary(c.op))
    ensures Before(sum, term) + Emit(c, Waiting(sum, term)) != Postfix(ReadingFrom(sum, term, c))
  {
    hide *;
    var o, w, b := c.operand, Waiting(sum, term), Before(sum, term);
    var x := OperandReading(o);
    var now, ops := EmittedAfter(o, w, c.op), PendingAfter(o, w, c.op);
    WaitingAreBinary(sum, term);
    EmitAfterOperand(c, w);
    OperandAt(o, w);
    EmitStartsWithPush(c.rest, ops);
    UsualGoesOn(sum, term, x, c.op, o.Call?);
    OnePopped(o, w, c.op);
    UsualGoesOnInReading(sum, term, c, |b| + |Postfix(x)| + |now|);
    Regroup(b, Postfix(x), now, Emit(c.rest, ops));
  }

  lemma OnePopped<N, V>(o: Operand<N, V>, w: seq<OpCode>, op: Op)
    requires NeedsSecondPop(w + if o.Call? then [CallInt] else [], Binary(op))
    ensures |EmittedAfter(o, w, op)| == if o.Call? then 0 else 1
  {
    assert w + [] == w;
  }

  lemma {:induction false} UsualGoesOnInReading<N, V>(
      sum: Option<Half<N, V>>, term: Option<Half<N, V>>, c: Chain<N, V>, at: nat)
    requires ProperHalves(sum, term) && c.Link?
    requires
      var x := OperandReading(c.operand);
      var usual := Before(NextSum(sum, term, x, c.op), NextTerm(term, x, c.op));
      at < |usual| && usual[at].Exec?
    ensures
      var whole := Postfix(ReadingFrom(sum, term, c));
      at < |whole| && whole[at].Exec?
  {
    var x := OperandReading(c.operand);
    var sum', term' := NextSum(sum, term, x, c.op), NextTerm(term, x, c.op);
    ReadingKeepsFront(sum', term', c.rest);
    var front := Before(sum', term') + Postfix(OperandReading(c.rest.operand));
    assert front[at] == Before(sum', term')[at];
    assert ReadingFrom(sum, term, c) == ReadingFrom(sum', term', c.rest);
  }

  /**
    The precedence law and its exact condition: the emitted instructions are those of
    the usual reading if and only if no operator ever needs a second pop.
   */
  lemma {:induction false} PrecedenceExactly<N, V>(c: Chain<N, V>)
    ensures Emit(c, []) == Postfix(Reading(c)) <==> OnePopSuffices(c, [])
  {
    EmitAgainstReading<N, V>(None, None, c);
    assert Before<N, V>(None, None) + Emit(c, []) == Emit(c, []);
  }

  // ----- How many operators wait --------------------------------------------------

  /** Binary operators of strictly rising priority; there are only two priorities for them. */
  predicate Rising(ops: seq<OpCode>) {
    && |ops| <= 2
    && (forall i :: 0 <= i < |ops| ==> ops[i].Binary?)
    && (|ops| == 2 ==> Priority(ops[0]) < Priority(ops[1]))
  }

  /** When no second pop is needed, the operators keep rising. */
  lemma {:induction false} StillRising<N, V>(o: Operand<N, V>, ops: seq<OpCode>, op: Op)
    requires Rising(ops)
    requires !NeedsSecondPop(ops + if o.Call? then [CallInt] else [], Binary(op))
    ensures Rising(PendingAfter(o, ops, op))
  {
    assert ops + [] == ops;
  }

  /** Where one pop suffices, at most three operators are ever pending at a level. */
  lemma {:induction false} OnePopFits<N, V>(c: Chain<N, V>, ops: seq<OpCode>)
    requires Rising(ops) && OnePopSuffices(c, ops)
    ensures OperatorsFit(c, ops, 3)
    decreases c, 1
  {
    OperandOnePopFits(c.operand);
    OperandAt(c.operand, ops);
    if c.Link? {
      OperatorAt(c.operand, ops, c.op);
      StillRising(c.operand, ops, c.op);
      OnePopFits(c.rest, PendingAfter(c.operand, ops, c.op));
    }
  }

  lemma {:induction false} OperandOnePopFits<N, V>(o: Operand<N, V>)
    requires OperandOnePopSuffices(o)
    ensures OperandOperatorsFit(o, 3)
    decreases o, 0
  {
    match o
    case Number(_) =>
    case Variable(_) =>
    case Group(c) => OnePopFits(c, []);
    case Call(c) => OnePopFits(c, []);
  }

  lemma {:induction false} FitsWithin<N, V>(c: Chain<N, V>, ops: seq<OpCode>, a: nat, b: nat)
    requires a <= b && OperatorsFit(c, ops, a)
    ensures OperatorsFit(c, ops, b)
    decreases c, 1
  {
    OperandFitsWithin(c.operand, a, b);
    if c.Link? {
      FitsWithin(c.rest, Pending(OperandPending(c.operand, ops), Binary(c.op)), a, b);
    }
  }

  lemma {:induction false} OperandFitsWithin<N, V>(o: Operand<N, V>, a: nat, b: nat)
    requires a <= b && OperandOperatorsFit(o, a)
    ensures OperandOperatorsFit(o, b)
    decreases o, 0
  {
    match o
    case Number(_) =>
    case Variable(_) =>
    case Group(c) => FitsWithin(c, [], a, b);
    case Call(c) => FitsWithin(c, [], a, b);
  }

  /** The priorities of the operators of one level, in the order they arrive; a call comes before what follows it. */
  function Arrivals<N, V>(c: Chain<N, V>): seq<int> {
    (if c.operand.Call? then [Priority(CallInt)] else [])
    + if c.Last? then [] else [Priority(Binary(c.op))] + Arrivals(c.rest)
  }

  /** How often the priorities rise, coming from `top`. */
  function Rises(top: int, ps: seq<int>): nat
    decreases |ps|
  {
    if ps == [] then 0 else (if top < ps[0] then 1 else 0) + Rises(ps[0], ps[1..])
  }

  /** At this level and at every level inside it, the priorities rise at most cap times, the first operator included. */
  predicate RisesWithin<N, V>(c: Chain<N, V>, cap: nat)
    decreases c, 2
  {
    Rises(0, Arrivals(c)) <= cap && InnerRisesWithin(c, cap)
  }

  predicate InnerRisesWithin<N, V>(c: Chain<N, V>, cap: nat)
    decreases c, 1
  {
    OperandRisesWithin(c.operand, cap) && (c.Link? ==> InnerRisesWithin(c.rest, cap))
  }

  predicate OperandRisesWithin<N, V>(o: Operand<N, V>, cap: nat)
    decreases o, 0
  {
    match o
    case Number(_) => true
    case Variable(_) => true
    case Group(c) => RisesWithin(c, cap)
    case Call(c) => RisesWithin(c, cap)
  }

  function Top(ops: seq<OpCode>): int {
    if ops == [] then 0 else Priority(ops[|ops| - 1])
  }

  lemma RisesOnArrival(ops: seq<OpCode>, op: OpCode)
    ensures |Pending(ops, op)| == |ops| + (if Top(ops) < Priority(op) then 1 else 0)
    ensures Top(Pending(ops, op)) == Priority(op)
  {
  }

  /**
    Which formulas keep within the operator array: as many operators wait at a level as
    priorities have risen there, for an operator that is no stronger than the last one
    takes that one's place.
   */
  lemma {:induction false} OperatorsFitExactly<N, V>(c: Chain<N, V>, cap: nat)
    ensures OperatorsFit(c, [], cap) <==> RisesWithin(c, cap)
    decreases c, 2
  {
    LevelFitsExactly(c, [], cap);
  }

  lemma {:induction false} LevelFitsExactly<N, V>(c: Chain<N, V>, ops: seq<OpCode>, cap: nat)
    requires |ops| <= cap
    ensures OperatorsFit(c, ops, cap) <==> |ops| + Rises(Top(ops), Arrivals(c)) <= cap && InnerRisesWithin(c, cap)
    decreases c, 1
  {
    hide *;
    OperandFitsExactly(c.operand, cap);
    LevelParts(c, ops, cap);
    RisesParts(c, Top(ops));
    var ops1 := OperandPending(c.operand, ops);
    RisesOnArrival(ops, CallInt);
    if c.Link? {
      var ops2 := Pending(ops1, Binary(c.op));
      RisesOnArrival(ops1, Binary(c.op));
      if |ops2| <= cap {
        LevelFitsExactly(c.rest, ops2, cap);
      }
    }
  }

  lemma LevelParts<N, V>(c: Chain<N, V>, ops: seq<OpCode>, cap: nat)
    ensures
      var ops1 := OperandPending(c.operand, ops);
      && ops1 == (if c.operand.Call? then Pending(ops, CallInt) else ops)
      && (OperatorsFit(c, ops, cap) <==>
            && OperandOperatorsFit(c.operand, cap) && |ops1| <= cap
            && (c.Link? ==>
                  |Pending(ops1, Binary(c.op))| <= cap && OperatorsFit(c.rest, Pending(ops1, Binary(c.op)), cap)))
      && (InnerRisesWithin(c, cap) <==>
            OperandRisesWithin(c.operand, cap) && (c.Link? ==> InnerRisesWithin(c.rest, cap)))
  {
    hide Pending, OperandOperatorsFit, OperandRisesWithin;
  }

  lemma RisesParts<N, V>(c: Chain<N, V>, top: int)
    ensures
      var call, p := Priority(CallInt), if c.Link? then Priority(Binary(c.op)) else 0;
      var top1 := if c.operand.Call? then call else top;
      && Rises(top, Arrivals(c)) ==
         (if c.operand.Call? && top < call then 1 else 0)
         + (if c.Link? then (if top1 < p then 1 else 0) + Rises(p, Arrivals(c.rest)) else 0)
  {
    hide Priority;
    var call := Priority(CallInt);
    if c.Link? {
      var more := [Priority(Binary(c.op))] + Arrivals(c.rest);
      assert more[1..] == Arrivals(c.rest);
      assert ([call] + more)[1..] == more;
      assert [] + more == more;
      assert Arrivals(c) == if c.operand.Call? then [call] + more else more;
    } else {
      assert Arrivals(c) == if c.operand.Call? then [call] else [];
    }
  }

  lemma {:induction false} OperandFitsExactly<N, V>(o: Operand<N, V>, cap: nat)
    ensures OperandOperatorsFit(o, cap) <==> OperandRisesWithin(o, cap)
    decreases o, 0
  {
    match o
    case Number(_) =>
    case Variable(_) =>
    case Group(c) => OperatorsFitExactly(c, cap);
    case Call(c) => OperatorsFitExactly(c, cap);
  }
}
