/**
  The one-pass compiler of src/mea_eval.c (_evalCalcN, mea_eval_buildStack_alloc):
  tokens in, instructions out, one operator array per parenthesis level.
 */
module Compiler {
  import opened Wrappers
  import opened Formula
  import opened Precedence
  import opened Slices

  const MAX_LEVEL := 10
  const MAX_CODE := 80
  const MAX_OPERATORS := 10

  /**
    The error codes 1 to 9 of the source.  Overrun is not one of them: the C code then
    writes past the operator array, or moves the instruction buffer behind its caller's back.
   */
  datatype Fault =
    | EmptyLevel | TooDeep | GroupNotClosed | NoOperand | CallNotOpened | CallNotClosed
    | StrayClose | NoOperator | Overrun

  /** The variable callback: it may register the name, so it changes a state of its own. */
  datatype Resolver<!S> = Resolver(step: (S, string) -> (S, Option<int>))

  datatype Outcome<N, S> =
    | Done(pos: nat, code: seq<Instr<N, int>>, env: S)
    | Failed(why: Fault, env: S)

  datatype AtomOutcome<N, S> =
    | Read(pos: nat, code: seq<Instr<N, int>>, ops: seq<OpCode>, env: S)
    | Rejected(why: Fault, env: S)

  predicate Fits<N>(code: seq<Instr<N, int>>, ops: seq<OpCode>) {
    |code| <= MAX_CODE && |ops| <= MAX_OPERATORS
  }

  /** One parenthesis level, from its first token. */
  function Level<N, S>(g: Resolver<S>, ts: seq<Token<N>>, lvl: nat, p: nat, code: seq<Instr<N, int>>, env: S)
      : (out: Outcome<N, S>)
    requires p <= |ts|
    ensures out.Done? ==> p < out.pos <= |ts|
    decreases |ts| - p, 2
  {
    if p == |ts| then Failed(EmptyLevel, env)
    else if lvl > MAX_LEVEL then Failed(TooDeep, env)
    else Walk(g, ts, lvl, p, code, [], env)
  }

  /** The rest of a level, from an operand, with operators pending. */
  function Walk<N, S>(g: Resolver<S>, ts: seq<Token<N>>, lvl: nat, p: nat,
                      code: seq<Instr<N, int>>, ops: seq<OpCode>, env: S): (out: Outcome<N, S>)
    requires p <= |ts|
    ensures out.Done? ==> p < out.pos <= |ts|
    decreases |ts| - p, 1
  {
    match Atom(g, ts, lvl, p, code, ops, env)
    case Rejected(why, env1) => Failed(why, env1)
    case Read(q, code1, ops1, env1) =>
      if q < |ts| && ts[q].TOp? then
        var op := Binary(ts[q].op);
        var code2, ops2 := code1 + Emitted(ops1, op), Pending(ops1, op);
        if !Fits(code2, ops2) then Failed(Overrun, env1)
        else Walk(g, ts, lvl, q + 1, code2, ops2, env1)
      else if q == |ts| || (ts[q].TClose? && lvl > 0) then
        var code2 := code1 + Flush(ops1);
        if !Fits(code2, []) then Failed(Overrun, env1) else Done(q, code2, env1)
      else
        Failed(if ts[q].TClose? then StrayClose else NoOperator, env1)
  }

  /** One operand. */
  function Atom<N, S>(g: Resolver<S>, ts: seq<Token<N>>, lvl: nat, p: nat,
                      code: seq<Instr<N, int>>, ops: seq<OpCode>, env: S): (out: AtomOutcome<N, S>)
    requires p <= |ts|
    ensures out.Read? ==> p < out.pos <= |ts|
    decreases |ts| - p, 0
  {
    if p == |ts| then Rejected(NoOperand, env) else
    match ts[p]
    case TNum(n) => Checked(p + 1, code + [PushNumber(n)], ops, env)
    case TVar(x) =>
      var (env1, id) := g.step(env, x);
      if id.None? then Rejected(NoOperand, env1)
      else Checked(p + 1, code + [PushRef(id.value), Exec(Load)], ops, env1)
    case TOpen =>
      (match Level(g, ts, lvl + 1, p + 1, code, env)
       case Failed(why, env1) => Rejected(why, env1)
       case Done(q, code1, env1) =>
         if q < |ts| then Checked(q + 1, code1, ops, env1) else Rejected(GroupNotClosed, env1))
    case TInt =>
      if p + 1 == |ts| || !ts[p + 1].TOpen? then Rejected(CallNotOpened, env) else
      (match Level(g, ts, lvl + 1, p + 2, code, env)
       case Failed(why, env1) => Rejected(why, env1)
       case Done(q, code1, env1) =>
         if q < |ts| then Checked(q + 1, code1 + Emitted(ops, CallInt), Pending(ops, CallInt), env1)
         else Rejected(CallNotClosed, env1))
    case TClose => Rejected(NoOperand, env)
    case TOp(_) => Rejected(NoOperand, env)
    case TJunk => Rejected(NoOperand, env)
  }

  function Checked<N, S>(p: nat, code: seq<Instr<N, int>>, ops: seq<OpCode>, env: S): AtomOutcome<N, S> {
    if Fits(code, ops) then Read(p, code, ops, env) else Rejected(Overrun, env)
  }

  /** A whole formula: level 0 from the first token. */
  function Compile<N, S>(g: Resolver<S>, ts: seq<Token<N>>, env: S): Outcome<N, S> {
    Level(g, ts, 0, 0, [], env)
  }

  // ----- Variables bound in the order they are met --------------------------------

  datatype Bound<N, S> = Bound(chain: Option<Chain<N, int>>, env: S)
  datatype BoundOperand<N, S> = BoundOperand(operand: Option<Operand<N, int>>, env: S)

  /** The chain with each variable replaced by the id the callback gives it, if it always gives one. */
  function Bind<N, S>(g: Resolver<S>, c: Chain<N, string>, env: S): (b: Bound<N, S>)
    ensures b.chain.Some? ==> b.chain.value.Last? == c.Last?
    decreases c, 1
  {
    var BoundOperand(o, env1) := BindOperand(g, c.operand, env);
    if o.None? then Bound(None, env1) else
    match c
    case Last(_) => Bound(Some(Last(o.value)), env1)
    case Link(_, op, rest) =>
      var Bound(r, env2) := Bind(g, rest, env1);
      if r.None? then Bound(None, env2) else Bound(Some(Link(o.value, op, r.value)), env2)
  }

  function BindOperand<N, S>(g: Resolver<S>, o: Operand<N, string>, env: S): BoundOperand<N, S>
    decreases o, 0
  {
    match o
    case Number(n) => BoundOperand(Some(Number(n)), env)
    case Variable(x) =>
      var (env1, id) := g.step(env, x);
      BoundOperand(if id.None? then None else Some(Variable(id.value)), env1)
    case Group(c) =>
      var Bound(r, env1) := Bind(g, c, env);
      BoundOperand(if r.None? then None else Some(Group(r.value)), env1)
    case Call(c) =>
      var Bound(r, env1) := Bind(g, c, env);
      BoundOperand(if r.None? then None else Some(Call(r.value)), env1)
  }

  // ----- Acceptance, both ways ------------------------------------------------------

  predicate OverrunBy<N, S>(out: Outcome<N, S>) {
    out.Failed? && out.why.Overrun?
  }

  lemma OverrunMeans<N, S>(env: S)
    ensures OverrunBy(Outcome<N, S>.Failed(Overrun, env))
  {
  }

  /** What ends a level: the end of the text, or a parenthesis that an outer level opened. */
  predicate Ends<N>(ts: seq<Token<N>>, lvl: nat, q: nat) {
    q == |ts| || (q < |ts| && ts[q].TClose? && lvl > 0)
  }

  /** The chain is within the compiler's limits, from this level with these operators pending. */
  predicate Within<N>(c: Chain<N, int>, lvl: nat, size: nat, ops: seq<OpCode>) {
    && lvl + Nesting(c) <= MAX_LEVEL
    && OperatorsFit(c, ops, MAX_OPERATORS)
    && size + Size(c) + |ops| <= MAX_CODE
  }

  // One step of each function, so that the proofs below need not look inside.

  lemma WalkEnds<N, S>(g: Resolver<S>, ts: seq<Token<N>>, lvl: nat, p: nat, code: seq<Instr<N, int>>, ops: seq<OpCode>,
                       env: S, r: AtomOutcome<N, S>)
    requires p <= |ts| && Atom(g, ts, lvl, p, code, ops, env) == r && r.Read? && Ends(ts, lvl, r.pos)
    ensures Walk(g, ts, lvl, p, code, ops, env) ==
            if Fits(r.code + Flush(r.ops), []) then Done(r.pos, r.code + Flush(r.ops), r.env)
            else Failed(Overrun, r.env)
  {
    hide Atom, Flush;
  }

  lemma WalkStops<N, S>(g: Resolver<S>, ts: seq<Token<N>>, lvl: nat, p: nat, code: seq<Instr<N, int>>,
                        ops: seq<OpCode>, env: S)
    requires p <= |ts| && Atom(g, ts, lvl, p, code, ops, env).Rejected?
    ensures
      var r := Atom(g, ts, lvl, p, code, ops, env);
      Walk(g, ts, lvl, p, code, ops, env) == Failed(r.why, r.env)
    ensures
      OverrunBy(Walk(g, ts, lvl, p, code, ops, env)) <==> Atom(g, ts, lvl, p, code, ops, env).why.Overrun?
  {
    hide Atom;
  }

  lemma WalkGoesOn<N, S>(g: Resolver<S>, ts: seq<Token<N>>, lvl: nat, p: nat, code: seq<Instr<N, int>>,
                         ops: seq<OpCode>, env: S, r: AtomOutcome<N, S>)
    requires p <= |ts| && Atom(g, ts, lvl, p, code, ops, env) == r && r.Read?
    requires r.pos < |ts| && ts[r.pos].TOp?
    ensures
      var op := Binary(ts[r.pos].op);
      var code2, ops2 := r.code + Emitted(r.ops, op), Pending(r.ops, op);
      Walk(g, ts, lvl, p, code, ops, env) ==
        if Fits(code2, ops2) then Walk(g, ts, lvl, r.pos + 1, code2, ops2, r.env) else Failed(Overrun, r.env)
  {
    hide Atom, Pending, Emitted;
  }

  lemma AtomLeaf<N, S>(g: Resolver<S>, ts: seq<Token<N>>, lvl: nat, p: nat, code: seq<Instr<N, int>>, ops: seq<OpCode>,
                       env: S)
    requires p <= |ts|
    ensures p == |ts| ==> Atom(g, ts, lvl, p, code, ops, env) == Rejected(NoOperand, env)
    ensures p < |ts| && ts[p].TNum? ==>
              Atom(g, ts, lvl, p, code, ops, env) == Checked(p + 1, code + [PushNumber(ts[p].value)], ops, env)
    ensures p < |ts| && ts[p].TVar? ==>
              var (env1, id) := g.step(env, ts[p].name);
              Atom(g, ts, lvl, p, code, ops, env) ==
                if id.None? then Rejected(NoOperand, env1)
                else Checked(p + 1, code + [PushRef(id.value), Exec(Load)], ops, env1)
    ensures p < |ts| && !ts[p].TNum? && !ts[p].TVar? && !ts[p].TOpen? && !ts[p].TInt? ==>
              Atom(g, ts, lvl, p, code, ops, env) == Rejected(NoOperand, env)
  {
    hide Walk, Level, Checked;
  }

  lemma AtomGroup<N, S>(g: Resolver<S>, ts: seq<Token<N>>, lvl: nat, p: nat, code: seq<Instr<N, int>>, ops: seq<OpCode>,
                        env: S, q: nat, code1: seq<Instr<N, int>>, env1: S)
    requires p < q < |ts| && ts[p].TOpen? && lvl < MAX_LEVEL
    requires Walk(g, ts, lvl + 1, p + 1, code, [], env) == Done(q, code1, env1)
    ensures Atom(g, ts, lvl, p, code, ops, env) == Checked(q + 1, code1, ops, env1)
  {
    hide Walk, Checked;
  }

  lemma AtomCall<N, S>(g: Resolver<S>, ts: seq<Token<N>>, lvl: nat, p: nat, code: seq<Instr<N, int>>, ops: seq<OpCode>,
                       env: S, q: nat, code1: seq<Instr<N, int>>, env1: S)
    requires p + 1 < q < |ts| && ts[p].TInt? && ts[p + 1].TOpen? && lvl < MAX_LEVEL
    requires Walk(g, ts, lvl + 1, p + 2, code, [], env) == Done(q, code1, env1)
    ensures Atom(g, ts, lvl, p, code, ops, env) ==
            Checked(q + 1, code1 + Emitted(ops, CallInt), Pending(ops, CallInt), env1)
  {
    hide Walk, Checked, Emitted, Pending;
  }

  /** What goes wrong inside parentheses goes wrong with the operand. */
  lemma AtomStops<N, S>(g: Resolver<S>, ts: seq<Token<N>>, lvl: nat, p: nat, code: seq<Instr<N, int>>,
                        ops: seq<OpCode>, env: S)
    requires p + 1 < |ts| && lvl < MAX_LEVEL
    requires ts[p].TOpen? || (ts[p].TInt? && ts[p + 1].TOpen? && p + 2 < |ts|)
    ensures
      var inside := Walk(g, ts, lvl + 1, if ts[p].TOpen? then p + 1 else p + 2, code, [], env);
      OverrunBy(inside) ==>
        Atom(g, ts, lvl, p, code, ops, env).Rejected? && Atom(g, ts, lvl, p, code, ops, env).why.Overrun?
  {
    hide Walk, Checked, Emitted, Pending;
  }

  // What a chain's parts are, so that the proofs below need not unfold it.

  lemma TextParts<N>(c: Chain<N, string>)
    ensures c.Last? ==> Text(c) == OperandText(c.operand)
    ensures c.Link? ==> Text(c) == OperandText(c.operand) + [TOp(c.op)] + Text(c.rest)
    ensures |Text(c)| == |OperandText(c.operand)| + if c.Link? then 1 + |Text(c.rest)| else 0
  {
  }

  lemma BindParts<N, S>(g: Resolver<S>, c: Chain<N, string>, env: S)
    ensures
      var o := BindOperand(g, c.operand, env);
      o.operand.Some? && (c.Link? ==> Bind(g, c.rest, o.env).chain.Some?) <==> Bind(g, c, env).chain.Some?
    ensures
      var o, b := BindOperand(g, c.operand, env), Bind(g, c, env);
      b.chain.Some? ==>
        if c.Last? then b == Bound(Some(Last(o.operand.value)), o.env)
        else
          var r := Bind(g, c.rest, o.env);
          b == Bound(Some(Link(o.operand.value, c.op, r.chain.value)), r.env)
  {
    hide BindOperand;
  }

  lemma EmitParts<N, V>(b: Chain<N, V>, ops: seq<OpCode>)
    ensures b.Last? ==> Emit(b, ops) == OperandCode(b.operand, ops) + Flush(OperandPending(b.operand, ops))
    ensures b.Link? ==>
      var ops1 := OperandPending(b.operand, ops);
      Emit(b, ops) == OperandCode(b.operand, ops) + Emitted(ops1, Binary(b.op)) + Emit(b.rest,
        Pending(ops1, Binary(b.op)))
  {
    hide OperandCode, OperandPending, Emitted, Pending, Flush;
  }

  lemma WithinParts<N>(b: Chain<N, int>, lvl: nat, size: nat, ops: seq<OpCode>)
    ensures
      var ops1 := OperandPending(b.operand, ops);
      var size1 := size + |OperandCode(b.operand, ops)|;
      var here :=
        && lvl + OperandNesting(b.operand) <= MAX_LEVEL && OperandOperatorsFit(b.operand, MAX_OPERATORS)
        && |ops1| <= MAX_OPERATORS;
      && size1 + |ops1| == size + OperandSize(b.operand) + |ops|
      && (b.Last? ==> (Within(b, lvl, size, ops) <==> here && size1 + |ops1| <= MAX_CODE))
      && (b.Link? ==>
            var e, ops2 := Emitted<N, int>(ops1, Binary(b.op)), Pending(ops1, Binary(b.op));
            && |e| + |ops2| == |ops1| + 1
            && (Within(b, lvl, size, ops) <==>
                  here && |ops2| <= MAX_OPERATORS && Within(b.rest, lvl, size1 + |e|, ops2))
            && (Within(b, lvl, size, ops) ==> size1 + |ops1| <= MAX_CODE && size1 + |e| <= MAX_CODE))
  {
    OperandCodeLength(b.operand, ops);
    if b.Link? {
      EmittedLength<N, int>(OperandPending(b.operand, ops), Binary(b.op));
    }
    hide OperandCode, OperandPending, Emitted, Pending, OperandNesting, OperandOperatorsFit, OperandSize;
  }

  lemma NestingParts<N>(b: Chain<N, int>)
    ensures Nesting(b) >= OperandNesting(b.operand) && (b.Link? ==> Nesting(b) >= Nesting(b.rest))
    ensures b.Last? ==> Nesting(b) == OperandNesting(b.operand)
  {
  }

  lemma WithinMeans<N>(b: Chain<N, int>, lvl: nat, size: nat, ops: seq<OpCode>)
    ensures Within(b, lvl, size, ops) ==>
      lvl + Nesting(b) <= MAX_LEVEL && size <= MAX_CODE && |ops| <= MAX_OPERATORS
    ensures 0 <= MAX_OPERATORS
  {
  }

  lemma FitsMeans<N>(code: seq<Instr<N, int>>, ops: seq<OpCode>)
    ensures Fits(code, ops) <==> |code| <= MAX_CODE && |ops| <= MAX_OPERATORS
  {
  }

  lemma Joined<T>(a: seq<T>, b: seq<T>, c: seq<T>, d: seq<T>)
    ensures a + b + c == a + (b + c) && a + b + c + d == a + (b + c + d)
  {
    assert a + b + c == a + (b + c);
    assert a + b + c + d == a + (b + c + d);
  }

  /**
    A chain whose variables all get an id, nested no deeper than allowed: within the limits
    it is read to its end, and beyond them the compiler's arrays are overrun.
   */
  lemma {:induction false} WalkExactly<N, S>(
      g: Resolver<S>, ts: seq<Token<N>>, lvl: nat, p: nat, code: seq<Instr<N, int>>, ops: seq<OpCode>, env: S,
      c: Chain<N, string>)
    requires At(ts, p, Text(c)) && Ends(ts, lvl, p + |Text(c)|)
    requires Bind(g, c, env).chain.Some? && lvl + Nesting(Bind(g, c, env).chain.value) <= MAX_LEVEL
    requires |ops| <= MAX_OPERATORS
    ensures
      var b := Bind(g, c, env);
      if Within(b.chain.value, lvl, |code|, ops) then
        Walk(g, ts, lvl, p, code, ops, env) == Done(p + |Text(c)|, code + Emit(b.chain.value, ops), b.env)
      else
        OverrunBy(Walk(g, ts, lvl, p, code, ops, env))
    decreases c, 1
  {
    hide *;
    BindParts(g, c, env);
    TextParts(c);
    var b := Bind(g, c, env).chain.value;
    var o := c.operand;
    var ops1 := OperandPending(b.operand, ops);
    var head := OperandCode(b.operand, ops);
    NestingParts(b);
    WithinParts(b, lvl, |code|, ops);
    EmitParts(b, ops);
    OperandFitsMeans(b.operand, |code|, ops);
    AtBound(ts, p, Text(c));
    var r := Atom(g, ts, lvl, p, code, ops, env);
    if c.Last? {
      AtomExactly(g, ts, lvl, p, code, ops, env, o);
      if r.Read? {
        WalkEnds(g, ts, lvl, p, code, ops, env, r);
        OverrunMeans<N, S>(r.env);
        FlushLength<N, int>(ops1);
        FitsMeans(code + head + Flush(ops1), []);
        Joined(code, head, Flush(ops1), []);
      } else {
        WalkStops(g, ts, lvl, p, code, ops, env);
      }
    } else {
      var q := p + |OperandText(o)|;
      LinkAt(ts, p, c);
      AtomExactly(g, ts, lvl, p, code, ops, env, o);
      if r.Read? {
        WalkGoesOn(g, ts, lvl, p, code, ops, env, r);
        var e, ops2 := Emitted<N, int>(ops1, Binary(c.op)), Pending(ops1, Binary(c.op));
        FitsMeans(code + head + e, ops2);
        Joined(code, head, e, Emit(b.rest, ops2));
        if |ops2| <= MAX_OPERATORS {
          WalkExactly(g, ts, lvl, q + 1, code + head + e, ops2, BindOperand(g, o, env).env, c.rest);
          WithinMeans(b.rest, lvl, |code + head + e|, ops2);
        }
        OverrunMeans<N, S>(r.env);
      } else {
        WalkStops(g, ts, lvl, p, code, ops, env);
      }
    }
  }

  lemma EmittedLength<N, V>(ops: seq<OpCode>, op: OpCode)
    ensures |Emitted<N, V>(ops, op)| + |Pending(ops, op)| == |ops| + 1
  {
  }

  lemma LinkAt<N>(ts: seq<Token<N>>, p: nat, c: Chain<N, string>)
    requires c.Link?
    ensures var q := p + |OperandText(c.operand)|;
            At(ts, p, Text(c)) <==>
            At(ts, p, OperandText(c.operand)) && q < |ts| && ts[q] == TOp(c.op) && At(ts, q + 1, Text(c.rest))
  {
    hide OperandText;
    var q := p + |OperandText(c.operand)|;
    AtSplit(ts, p, OperandText(c.operand), [TOp(c.op)] + Text(c.rest));
    AtSplit(ts, q, [TOp(c.op)], Text(c.rest));
    assert Text(c) == OperandText(c.operand) + ([TOp(c.op)] + Text(c.rest));
    assert q < |ts| ==> ts[q..q + 1] == [ts[q]];
  }

  lemma EnclosedAt<N>(ts: seq<Token<N>>, p: nat, open: seq<Token<N>>, inner: seq<Token<N>>)
    ensures
      var q := p + |open| + |inner|;
      At(ts, p, open + inner + [TClose]) <==>
      At(ts, p, open) && At(ts, p + |open|, inner) && q < |ts| && ts[q] == TClose
  {
    var q := p + |open| + |inner|;
    assert q < |ts| ==> ts[q..q + 1] == [ts[q]];
    AtSplit(ts, p + |open|, inner, [TClose]);
    AtSplit(ts, p, open, inner + [TClose]);
    assert open + inner + [TClose] == open + (inner + [TClose]);
  }

  /** What reading an operand takes of the arrays: its own code, and the operators waiting. */
  predicate OperandFits<N>(b: Operand<N, int>, size: nat, ops: seq<OpCode>) {
    && OperandOperatorsFit(b, MAX_OPERATORS) && |OperandPending(b, ops)| <= MAX_OPERATORS
    && size + |OperandCode(b, ops)| <= MAX_CODE
  }

  lemma {:induction false} AtomExactly<N, S>(
      g: Resolver<S>, ts: seq<Token<N>>, lvl: nat, p: nat, code: seq<Instr<N, int>>, ops: seq<OpCode>, env: S,
      o: Operand<N, string>)
    requires At(ts, p, OperandText(o))
    requires BindOperand(g, o, env).operand.Some?
    requires lvl + OperandNesting(BindOperand(g, o, env).operand.value) <= MAX_LEVEL && |ops| <= MAX_OPERATORS
    ensures
      var BoundOperand(b, env1) := BindOperand(g, o, env);
      var r := Atom(g, ts, lvl, p, code, ops, env);
      if OperandFits(b.value, |code|, ops) then
        r == Read(p + |OperandText(o)|, code + OperandCode(b.value, ops), OperandPending(b.value, ops), env1)
      else
        r.Rejected? && r.why.Overrun?
    decreases o, 0
  {
    hide *;
    BindOperandIs(g, o, env);
    OperandTextIs(o);
    var b := BindOperand(g, o, env).operand.value;
    OperandIs(b, ops);
    OperandFitsMeans(b, |code|, ops);
    CheckedMeans(p + |OperandText(o)|, code + OperandCode(b, ops), OperandPending(b, ops), BindOperand(g, o, env).env);
    match o
    case Number(n) =>
      AtOne(ts, p, TNum(n));
      AtomLeaf(g, ts, lvl, p, code, ops, env);
    case Variable(x) =>
      AtOne(ts, p, TVar(x));
      AtomLeaf(g, ts, lvl, p, code, ops, env);
    case Group(c) =>
      EnclosedAt(ts, p, [TOpen], Text(c));
      AtOne(ts, p, TOpen);
      EndsInside(ts, lvl, p + 1 + |Text(c)|);
      WithinInside(b.inner, lvl, |code|);
      WithinMeans(b.inner, lvl + 1, |code|, []);
      EmitLength(b.inner, []);
      WalkExactly(g, ts, lvl + 1, p + 1, code, [], env, c);
      if Within(b.inner, lvl + 1, |code|, []) {
        AtomGroup(g, ts, lvl, p, code, ops, env, p + 1 + |Text(c)|, code + Emit(b.inner, []), Bind(g, c, env).env);
      } else {
        AtomStops(g, ts, lvl, p, code, ops, env);
      }
    case Call(c) =>
      EnclosedAt(ts, p, [TInt, TOpen], Text(c));
      AtTwo(ts, p, TInt, TOpen);
      EndsInside(ts, lvl, p + 2 + |Text(c)|);
      WithinInside(b.arg, lvl, |code|);
      WithinMeans(b.arg, lvl + 1, |code|, []);
      EmitLength(b.arg, []);
      WalkExactly(g, ts, lvl + 1, p + 2, code, [], env, c);
      if Within(b.arg, lvl + 1, |code|, []) {
        AtomCall(g, ts, lvl, p, code, ops, env, p + 2 + |Text(c)|, code + Emit(b.arg, []), Bind(g, c, env).env);
        Joined(code, Emit(b.arg, []), Emitted(ops, CallInt), []);
      } else {
        AtomStops(g, ts, lvl, p, code, ops, env);
      }
  }

  // What an operand is.

  lemma OperandTextIs<N>(o: Operand<N, string>)
    ensures OperandText(o) ==
      match o
      case Number(n) => [TNum(n)]
      case Variable(x) => [TVar(x)]
      case Group(c) => [TOpen] + Text(c) + [TClose]
      case Call(c) => [TInt, TOpen] + Text(c) + [TClose]
  {
  }

  lemma BindOperandIs<N, S>(g: Resolver<S>, o: Operand<N, string>, env: S)
    ensures BindOperand(g, o, env) ==
      match o
      case Number(n) => BoundOperand(Some(Number(n)), env)
      case Variable(x) =>
        var (env1, id) := g.step(env, x);
        BoundOperand(if id.None? then None else Some(Variable(id.value)), env1)
      case Group(c) =>
        var Bound(r, env1) := Bind(g, c, env);
        BoundOperand(if r.None? then None else Some(Group(r.value)), env1)
      case Call(c) =>
        var Bound(r, env1) := Bind(g, c, env);
        BoundOperand(if r.None? then None else Some(Call(r.value)), env1)
  {
    hide Bind;
  }

  /** Code, pending operators, size, nesting and fit of an operand. */
  lemma {:induction false} OperandIs<N>(b: Operand<N, int>, ops: seq<OpCode>)
    ensures
      match b
      case Number(n) => OperandCode(b, ops) == [PushNumber(n)]
      case Variable(x) => OperandCode(b, ops) == [PushRef(x), Exec(Load)]
      case Group(c) =>
        && OperandCode(b, ops) == Emit(c, []) && OperandSize(b) == Size(c) && OperandNesting(b) == 1 + Nesting(c)
        && (OperandOperatorsFit(b, MAX_OPERATORS) <==> OperatorsFit(c, [], MAX_OPERATORS))
      case Call(c) =>
        && OperandCode(b, ops) == Emit(c, []) + Emitted(ops, CallInt)
        && OperandSize(b) == Size(c) + 1 && OperandNesting(b) == 1 + Nesting(c)
        && (OperandOperatorsFit(b, MAX_OPERATORS) <==> OperatorsFit(c, [], MAX_OPERATORS))
    ensures b.Number? || b.Variable? ==> OperandNesting(b) == 0 && OperandOperatorsFit(b, MAX_OPERATORS)
    ensures OperandPending(b, ops) == if b.Call? then Pending(ops, CallInt) else ops
    ensures |OperandCode(b, ops)| + |OperandPending(b, ops)| == OperandSize(b) + |ops|
  {
    OperandCodeLength(b, ops);
    hide Emit, Emitted, Pending, Size, Nesting, OperatorsFit;
  }

  lemma OperandFitsMeans<N>(b: Operand<N, int>, size: nat, ops: seq<OpCode>)
    ensures OperandFits(b, size, ops) <==>
            && OperandOperatorsFit(b, MAX_OPERATORS) && |OperandPending(b, ops)| <= MAX_OPERATORS
            && size + |OperandCode(b, ops)| <= MAX_CODE
  {
  }

  lemma CheckedMeans<N, S>(p: nat, code: seq<Instr<N, int>>, ops: seq<OpCode>, env: S)
    ensures Checked(p, code, ops, env) ==
            if |code| <= MAX_CODE && |ops| <= MAX_OPERATORS then Read(p, code, ops, env) else Rejected(Overrun, env)
  {
  }

  lemma EndsInside<N>(ts: seq<Token<N>>, lvl: nat, q: nat)
    requires q < |ts|
    ensures Ends(ts, lvl + 1, q) <==> ts[q] == TClose
  {
  }

  lemma WithinInside<N>(c: Chain<N, int>, lvl: nat, size: nat)
    ensures Within(c, lvl + 1, size, []) <==>
            lvl + 1 + Nesting(c) <= MAX_LEVEL && OperatorsFit(c, [], MAX_OPERATORS) && size + Size(c) <= MAX_CODE
  {
  }

  lemma AtTwo<N>(ts: seq<Token<N>>, p: nat, a: Token<N>, b: Token<N>)
    ensures At(ts, p, [a, b]) <==> p + 1 < |ts| && ts[p] == a && ts[p + 1] == b
  {
    if p + 1 < |ts| {
      assert ts[p..p + 2] == [ts[p], ts[p + 1]];
    }
  }

  // The same steps, read backwards.

  lemma WalkWasDone<N, S>(g: Resolver<S>, ts: seq<Token<N>>, lvl: nat, p: nat, code: seq<Instr<N, int>>,
                          ops: seq<OpCode>, env: S)
    requires p <= |ts| && Walk(g, ts, lvl, p, code, ops, env).Done?
    ensures
      var r := Atom(g, ts, lvl, p, code, ops, env);
      && r.Read?
      && if r.pos < |ts| && ts[r.pos].TOp? then
           var op := Binary(ts[r.pos].op);
           var code2, ops2 := r.code + Emitted(r.ops, op), Pending(r.ops, op);
           && Fits(code2, ops2)
           && Walk(g, ts, lvl, p, code, ops, env) == Walk(g, ts, lvl, r.pos + 1, code2, ops2, r.env)
         else
           && Ends(ts, lvl, r.pos) && Fits(r.code + Flush(r.ops), [])
           && Walk(g, ts, lvl, p, code, ops, env) == Done(r.pos, r.code + Flush(r.ops), r.env)
  {
    hide Atom, Emitted, Pending, Flush;
  }

  lemma AtomWasGroup<N, S>(g: Resolver<S>, ts: seq<Token<N>>, lvl: nat, p: nat, code: seq<Instr<N, int>>,
                           ops: seq<OpCode>, env: S)
    requires p < |ts| && ts[p].TOpen? && Atom(g, ts, lvl, p, code, ops, env).Read?
    ensures p + 1 < |ts| && lvl < MAX_LEVEL
    ensures
      var r := Walk(g, ts, lvl + 1, p + 1, code, [], env);
      && r.Done? && r.pos < |ts| && Fits(r.code, ops)
      && Atom(g, ts, lvl, p, code, ops, env) == Read(r.pos + 1, r.code, ops, r.env)
  {
    hide Walk;
  }

  lemma AtomWasCall<N, S>(g: Resolver<S>, ts: seq<Token<N>>, lvl: nat, p: nat, code: seq<Instr<N, int>>,
                          ops: seq<OpCode>, env: S)
    requires p < |ts| && ts[p].TInt? && Atom(g, ts, lvl, p, code, ops, env).Read?
    ensures p + 2 < |ts| && lvl < MAX_LEVEL && ts[p + 1].TOpen?
    ensures
      var r := Walk(g, ts, lvl + 1, p + 2, code, [], env);
      && r.Done? && r.pos < |ts| && Fits(r.code + Emitted(ops, CallInt), Pending(ops, CallInt))
      && Atom(g, ts, lvl, p, code, ops, env) ==
         Read(r.pos + 1, r.code + Emitted(ops, CallInt), Pending(ops, CallInt), r.env)
  {
    hide Walk, Emitted, Pending;
  }

  /** Soundness: what is accepted is a chain within the limits, and its instructions are emitted. */
  lemma {:induction false} WalkSound<N, S>(
      g: Resolver<S>, ts: seq<Token<N>>, lvl: nat, p: nat, code: seq<Instr<N, int>>, ops: seq<OpCode>, env: S)
      returns (c: Chain<N, string>)
    requires p <= |ts| && lvl <= MAX_LEVEL
    requires Walk(g, ts, lvl, p, code, ops, env).Done?
    ensures At(ts, p, Text(c)) && Ends(ts, lvl, p + |Text(c)|)
    ensures Bind(g, c, env).chain.Some?
    ensures Within(Bind(g, c, env).chain.value, lvl, |code|, ops)
    decreases |ts| - p, 1
  {
    hide *;
    WalkWasDone(g, ts, lvl, p, code, ops, env);
    var o := AtomSound(g, ts, lvl, p, code, ops, env);
    var b1 := BindOperand(g, o, env).operand.value;
    var env1 := BindOperand(g, o, env).env;
    var q := p + |OperandText(o)|;
    var ops1 := OperandPending(b1, ops);
    FitsMeans(code + OperandCode(b1, ops), ops1);
    if q < |ts| && ts[q].TOp? {
      var op := ts[q].op;
      var code2, ops2 := code + OperandCode(b1, ops) + Emitted(ops1, Binary(op)), Pending(ops1, Binary(op));
      FitsMeans(code2, ops2);
      var rest := WalkSound(g, ts, lvl, q + 1, code2, ops2, env1);
      c := Link(o, op, rest);
      LinkAt(ts, p, c);
    } else {
      c := Last(o);
      FlushLength<N, int>(ops1);
      FitsMeans(code + OperandCode(b1, ops) + Flush(ops1), []);
    }
    TextParts(c);
    BindParts(g, c, env);
    WithinParts(Bind(g, c, env).chain.value, lvl, |code|, ops);
  }

  lemma {:induction false} AtomSound<N, S>(
      g: Resolver<S>, ts: seq<Token<N>>, lvl: nat, p: nat, code: seq<Instr<N, int>>, ops: seq<OpCode>, env: S)
      returns (o: Operand<N, string>)
    requires p <= |ts| && lvl <= MAX_LEVEL
    requires Atom(g, ts, lvl, p, code, ops, env).Read?
    ensures At(ts, p, OperandText(o))
    ensures BindOperand(g, o, env).operand.Some?
    ensures
      var b := BindOperand(g, o, env).operand.value;
      && lvl + OperandNesting(b) <= MAX_LEVEL && OperandOperatorsFit(b, MAX_OPERATORS)
      && Atom(g, ts, lvl, p, code, ops, env) ==
         Read(p + |OperandText(o)|, code + OperandCode(b, ops), OperandPending(b, ops), BindOperand(g, o, env).env)
      && Fits(code + OperandCode(b, ops), OperandPending(b, ops))
    decreases |ts| - p, 0
  {
    hide *;
    AtomLeaf(g, ts, lvl, p, code, ops, env);
    match ts[p] {
      case TNum(n) =>
        o := Number(n);
        AtOne(ts, p, ts[p]);
        CheckedMeans(p + 1, code + [PushNumber(n)], ops, env);
      case TVar(x) =>
        o := Variable(x);
        AtOne(ts, p, ts[p]);
        var (env1, id) := g.step(env, x);
        if id.Some? {
          CheckedMeans(p + 1, code + [PushRef(id.value), Exec(Load)], ops, env1);
        }
      case TOpen =>
        AtomWasGroup(g, ts, lvl, p, code, ops, env);
        var c := WalkSound(g, ts, lvl + 1, p + 1, code, [], env);
        o := Group(c);
        WithinMeans(Bind(g, c, env).chain.value, lvl + 1, |code|, []);
        WalkExactly(g, ts, lvl + 1, p + 1, code, [], env, c);
        EndsInside(ts, lvl, p + 1 + |Text(c)|);
        AtOne(ts, p, TOpen);
        EnclosedAt(ts, p, [TOpen], Text(c));
        WithinInside(Bind(g, c, env).chain.value, lvl, |code|);
      case TInt =>
        AtomWasCall(g, ts, lvl, p, code, ops, env);
        var c := WalkSound(g, ts, lvl + 1, p + 2, code, [], env);
        o := Call(c);
        WithinMeans(Bind(g, c, env).chain.value, lvl + 1, |code|, []);
        WalkExactly(g, ts, lvl + 1, p + 2, code, [], env, c);
        EndsInside(ts, lvl, p + 2 + |Text(c)|);
        AtTwo(ts, p, TInt, TOpen);
        EnclosedAt(ts, p, [TInt, TOpen], Text(c));
        WithinInside(Bind(g, c, env).chain.value, lvl, |code|);
        Joined(code, Emit(Bind(g, c, env).chain.value, []), Emitted(ops, CallInt), []);
    }
    BindOperandIs(g, o, env);
    OperandTextIs(o);
    var b := BindOperand(g, o, env).operand.value;
    OperandIs(b, ops);
    FitsMeans(code + OperandCode(b, ops), OperandPending(b, ops));
  }

  /**
    The compiler accepts exactly the texts of chains within its limits whose variables
    all get an id, and emits exactly the instructions of the bound chain.
   */
  lemma {:induction false} CompileExactly<N, S>(g: Resolver<S>, ts: seq<Token<N>>, env: S)
    ensures Compile(g, ts, env).Done? <==>
            exists c :: Text(c) == ts && Bind(g, c, env).chain.Some? && Within(Bind(g, c, env).chain.value, 0, 0, [])
    ensures forall c ::
              Text(c) == ts && Bind(g, c, env).chain.Some? && Within(Bind(g, c, env).chain.value, 0, 0, []) ==>
              Compile(g, ts, env) == Done(|ts|, Emit(Bind(g, c, env).chain.value, []), Bind(g, c, env).env)
  {
    hide *;
    if Compile(g, ts, env).Done? {
      var c := Accepted(g, ts, env);
    }
    forall c | Text(c) == ts && Bind(g, c, env).chain.Some? && Within(Bind(g, c, env).chain.value, 0, 0, [])
      ensures Compile(g, ts, env) == Done(|ts|, Emit(Bind(g, c, env).chain.value, []), Bind(g, c, env).env)
    {
      CompileIsWalk(g, ts, env);
      AtWhole(ts, Text(c));
      WithinMeans(Bind(g, c, env).chain.value, 0, 0, []);
      WalkExactly(g, ts, 0, 0, [], [], env, c);
      var code := Emit(Bind(g, c, env).chain.value, []);
      assert [] + code == code;
    }
  }

  /** The chain of an accepted formula. */
  lemma {:induction false} Accepted<N, S>(g: Resolver<S>, ts: seq<Token<N>>, env: S) returns (c: Chain<N, string>)
    requires Compile(g, ts, env).Done?
    ensures Text(c) == ts && Bind(g, c, env).chain.Some? && Within(Bind(g, c, env).chain.value, 0, 0, [])
    ensures Compile(g, ts, env) == Done(|ts|, Emit(Bind(g, c, env).chain.value, []), Bind(g, c, env).env)
  {
    CompileIsWalk(g, ts, env);
    hide *;
    c := WalkSound(g, ts, 0, 0, [], [], env);
    AtWhole(ts, Text(c));
    WithinMeans(Bind(g, c, env).chain.value, 0, 0, []);
    WalkExactly(g, ts, 0, 0, [], [], env, c);
    var code := Emit(Bind(g, c, env).chain.value, []);
    assert [] + code == code;
  }

  lemma CompileIsWalk<N, S>(g: Resolver<S>, ts: seq<Token<N>>, env: S)
    ensures ts != [] ==> Compile(g, ts, env) == Walk(g, ts, 0, 0, [], [], env)
    ensures ts == [] ==> Compile(g, ts, env).Failed?
    ensures 0 <= MAX_LEVEL
  {
    hide Walk;
  }

  /** At the top level the text ends where the tokens end. */
  lemma AtWhole<N>(ts: seq<Token<N>>, text: seq<Token<N>>)
    ensures At(ts, 0, text) && Ends(ts, 0, |text|) <==> text == ts
  {
    assert ts[..|ts|] == ts && ts[0..|ts|] == ts;
  }

  // ----- What the callback keeps, compiling keeps ------------------------------------

  ghost predicate StepKeeps<S(!new)>(g: Resolver<S>, inv: S -> bool) {
    forall s, x :: inv(s) ==> inv(g.step(s, x).0)
  }

  lemma {:induction false} LevelKeeps<N, S(!new)>(
      g: Resolver<S>, inv: S -> bool, ts: seq<Token<N>>, lvl: nat, p: nat, code: seq<Instr<N, int>>, env: S)
    requires StepKeeps(g, inv) && inv(env) && p <= |ts|
    ensures inv(Level(g, ts, lvl, p, code, env).env)
    decreases |ts| - p, 2
  {
    hide Walk;
    if p < |ts| && lvl <= MAX_LEVEL {
      WalkKeeps(g, inv, ts, lvl, p, code, [], env);
    }
  }

  lemma {:induction false} WalkKeeps<N, S(!new)>(
      g: Resolver<S>, inv: S -> bool, ts: seq<Token<N>>, lvl: nat, p: nat,
      code: seq<Instr<N, int>>, ops: seq<OpCode>, env: S)
    requires StepKeeps(g, inv) && inv(env) && p <= |ts|
    ensures inv(Walk(g, ts, lvl, p, code, ops, env).env)
    decreases |ts| - p, 1
  {
    hide Atom, Emitted, Pending, Flush;
    AtomKeeps(g, inv, ts, lvl, p, code, ops, env);
    var out := Atom(g, ts, lvl, p, code, ops, env);
    if out.Read? && out.pos < |ts| && ts[out.pos].TOp? {
      var op := Binary(ts[out.pos].op);
      var code2, ops2 := out.code + Emitted(out.ops, op), Pending(out.ops, op);
      WalkKeeps(g, inv, ts, lvl, out.pos + 1, code2, ops2, out.env);
    }
  }

  lemma {:induction false} AtomKeeps<N, S(!new)>(
      g: Resolver<S>, inv: S -> bool, ts: seq<Token<N>>, lvl: nat, p: nat,
      code: seq<Instr<N, int>>, ops: seq<OpCode>, env: S)
    requires StepKeeps(g, inv) && inv(env) && p <= |ts|
    ensures inv(Atom(g, ts, lvl, p, code, ops, env).env)
    decreases |ts| - p, 0
  {
    hide Level, Emitted, Pending;
    if p < |ts| && ts[p].TOpen? {
      LevelKeeps(g, inv, ts, lvl + 1, p + 1, code, env);
    } else if p + 1 < |ts| && ts[p].TInt? && ts[p + 1].TOpen? {
      LevelKeeps(g, inv, ts, lvl + 1, p + 2, code, env);
    } else if p < |ts| && ts[p].TVar? {
      assert inv(g.step(env, ts[p].name).0);
    }
  }

  /** Whatever the outcome, the environment a compilation leaves satisfies what each callback keeps. */
  lemma CompileKeeps<N, S(!new)>(g: Resolver<S>, inv: S -> bool, ts: seq<Token<N>>, env: S)
    requires StepKeeps(g, inv) && inv(env)
    ensures inv(Compile(g, ts, env).env)
  {
    LevelKeeps(g, inv, ts, 0, 0, [], env);
  }

  // ----- Two callbacks side by side -----------------------------------------------------

  /**
    The second callback never refuses; while the first has not refused either, their
    environments are in step, and from its refusal on they are apart.
   */
  ghost predicate Follows<S(!new), T(!new)>(
      g: Resolver<S>, h: Resolver<T>, inStep: (S, T) -> bool, apart: (S, T) -> bool) {
    && (forall t, x :: h.step(t, x).1.Some?)
    && (forall s, t, x :: inStep(s, t) && g.step(s, x).1.Some? ==> inStep(g.step(s, x).0, h.step(t, x).0))
    && (forall s, t, x :: inStep(s, t) && g.step(s, x).1.None? ==> apart(g.step(s, x).0, h.step(t, x).0))
    && (forall s, t, x :: apart(s, t) ==> apart(s, h.step(t, x).0))
  }

  lemma ApartStays<S(!new), T(!new)>(
      g: Resolver<S>, h: Resolver<T>, inStep: (S, T) -> bool, apart: (S, T) -> bool, s: S)
    requires Follows(g, h, inStep, apart)
    ensures StepKeeps(h, (t: T) => apart(s, t))
  {
  }

  /** How the outcomes of the two compare: alike but for the ids, or the first was refused. */
  ghost predicate Compare<N, S, T>(
      inStep: (S, T) -> bool, apart: (S, T) -> bool, a: Outcome<N, S>, b: Outcome<N, T>) {
    match a
    case Done(pos, code, env) => b.Done? && b.pos == pos && |b.code| == |code| && inStep(env, b.env)
    case Failed(why, env) => (b.Failed? && b.why == why && inStep(env, b.env)) || (why.NoOperand? && apart(env, b.env))
  }

  ghost predicate CompareAtoms<N, S, T>(
      inStep: (S, T) -> bool, apart: (S, T) -> bool, a: AtomOutcome<N, S>, b: AtomOutcome<N, T>) {
    match a
    case Read(pos, code, ops, env) =>
      b.Read? && b.pos == pos && |b.code| == |code| && b.ops == ops && inStep(env, b.env)
    case Rejected(why, env) =>
      (b.Rejected? && b.why == why && inStep(env, b.env)) || (why.NoOperand? && apart(env, b.env))
  }

  lemma {:induction false} LevelFollows<N, S(!new), T(!new)>(
      g: Resolver<S>, h: Resolver<T>, inStep: (S, T) -> bool, apart: (S, T) -> bool, ts: seq<Token<N>>, lvl: nat,
      p: nat, code: seq<Instr<N, int>>, code': seq<Instr<N, int>>, env: S, env': T)
    requires Follows(g, h, inStep, apart) && p <= |ts| && |code| == |code'| && inStep(env, env')
    ensures Compare(inStep, apart, Level(g, ts, lvl, p, code, env), Level(h, ts, lvl, p, code', env'))
    decreases |ts| - p, 2
  {
    hide Walk, Follows;
    if p < |ts| && lvl <= MAX_LEVEL {
      WalkFollows(g, h, inStep, apart, ts, lvl, p, code, code', [], env, env');
    }
  }

  lemma {:induction false} WalkFollows<N, S(!new), T(!new)>(
      g: Resolver<S>, h: Resolver<T>, inStep: (S, T) -> bool, apart: (S, T) -> bool, ts: seq<Token<N>>, lvl: nat,
      p: nat, code: seq<Instr<N, int>>, code': seq<Instr<N, int>>, ops: seq<OpCode>, env: S, env': T)
    requires Follows(g, h, inStep, apart) && p <= |ts| && |code| == |code'| && inStep(env, env')
    ensures Compare(inStep, apart, Walk(g, ts, lvl, p, code, ops, env), Walk(h, ts, lvl, p, code', ops, env'))
    decreases |ts| - p, 1
  {
    hide Atom, Follows, Pending, Flush, Emitted;
    AtomFollows(g, h, inStep, apart, ts, lvl, p, code, code', ops, env, env');
    var a, b := Atom(g, ts, lvl, p, code, ops, env), Atom(h, ts, lvl, p, code', ops, env');
    if a.Rejected? && b.Read? {
      ApartStays(g, h, inStep, apart, a.env);
      WalkApart(h, (t: T) => apart(a.env, t), ts, lvl, b, ops, p, code', env');
    } else if a.Read? && a.pos < |ts| && ts[a.pos].TOp? {
      var op := Binary(ts[a.pos].op);
      EmittedAlike<N>(a.ops, op);
      if Fits(a.code + Emitted(a.ops, op), Pending(a.ops, op)) {
        WalkFollows(g, h, inStep, apart, ts, lvl, a.pos + 1, a.code + Emitted(a.ops, op), b.code + Emitted(a.ops, op),
                    Pending(a.ops, op), a.env, b.env);
      }
    }
  }

  lemma EmittedAlike<N>(ops: seq<OpCode>, op: OpCode)
    ensures |Emitted<N, int>(ops, op)| <= 1
  {
  }

  /** What the rest of a level keeps, after an operand that was read. */
  lemma WalkApart<N, S(!new)>(
      g: Resolver<S>, inv: S -> bool, ts: seq<Token<N>>, lvl: nat, b: AtomOutcome<N, S>, ops: seq<OpCode>, p: nat,
      code: seq<Instr<N, int>>, env: S)
    requires StepKeeps(g, inv) && p <= |ts| && b == Atom(g, ts, lvl, p, code, ops, env) && b.Read? && inv(b.env)
    ensures inv(Walk(g, ts, lvl, p, code, ops, env).env)
  {
    hide Atom, Emitted, Pending, Flush;
    if b.pos < |ts| && ts[b.pos].TOp? {
      var op := Binary(ts[b.pos].op);
      WalkKeeps(g, inv, ts, lvl, b.pos + 1, b.code + Emitted(b.ops, op), Pending(b.ops, op), b.env);
    }
  }

  lemma {:induction false} AtomFollows<N, S(!new), T(!new)>(
      g: Resolver<S>, h: Resolver<T>, inStep: (S, T) -> bool, apart: (S, T) -> bool, ts: seq<Token<N>>, lvl: nat,
      p: nat, code: seq<Instr<N, int>>, code': seq<Instr<N, int>>, ops: seq<OpCode>, env: S, env': T)
    requires Follows(g, h, inStep, apart) && p <= |ts| && |code| == |code'| && inStep(env, env')
    ensures CompareAtoms(inStep, apart, Atom(g, ts, lvl, p, code, ops, env), Atom(h, ts, lvl, p, code', ops, env'))
    decreases |ts| - p, 0
  {
    hide Level, Pending, Emitted;
    if p < |ts| && ts[p].TOpen? {
      LevelFollows(g, h, inStep, apart, ts, lvl + 1, p + 1, code, code', env, env');
    } else if p + 1 < |ts| && ts[p].TInt? && ts[p + 1].TOpen? {
      LevelFollows(g, h, inStep, apart, ts, lvl + 1, p + 2, code, code', env, env');
    } else if p < |ts| && ts[p].TVar? {
      assert h.step(env', ts[p].name).1.Some?;
    }
  }

  /** The names that compiling asks ids for, if none is ever refused. */
  function Requested<N>(ts: seq<Token<N>>): seq<string> {
    Compile(Recorder(), ts, []).env
  }

  function Recorder(): Resolver<seq<string>> {
    Resolver((asked: seq<string>, x: string) => (asked + [x], Some(0)))
  }

  lemma FlushNext<N, V>(code: seq<Instr<N, V>>, ops: seq<OpCode>)
    ensures ops == [] ==> code + Flush(ops) == code
    ensures ops != [] ==> code + Flush(ops) == code + [Exec(ops[|ops| - 1])] + Flush(ops[..|ops| - 1])
  {
    if ops != [] {
      FlushStep<N, V>(ops);
      var last: seq<Instr<N, V>> := [Exec(ops[|ops| - 1])];
      assert code + (last + Flush(ops[..|ops| - 1])) == code + last + Flush(ops[..|ops| - 1]);
    }
  }

  lemma FlushStep<N, V>(ops: seq<OpCode>)
    requires ops != []
    ensures Flush<N, V>(ops) == [Exec(ops[|ops| - 1])] + Flush(ops[..|ops| - 1])
  {
  }

  // ----- The compiler itself ----------------------------------------------------------

  /** The instruction buffer of one compilation, filled in place by the nested levels. */
  class Builder<N(0), !S> {
    const ts: seq<Token<N>>
    const g: Resolver<S>
    const stack: array<Instr<N, int>>
    var size: nat
    var env: S

    ghost predicate Valid()
      reads this
    {
      stack.Length == MAX_CODE && size <= MAX_CODE
    }

    ghost function Code(): seq<Instr<N, int>>
      requires Valid()
      reads this, stack
    {
      stack[..size]
    }

    constructor (g: Resolver<S>, ts: seq<Token<N>>, env: S)
      ensures Valid() && fresh(stack)
      ensures this.g == g && this.ts == ts && this.env == env && Code() == []
    {
      this.g, this.ts, this.env := g, ts, env;
      stack := new Instr<N, int>[MAX_CODE];
      size := 0;
    }

    /** pushToEvalStack: false when the buffer is full. */
    method Push(i: Instr<N, int>) returns (ok: bool)
      requires Valid()
      modifies this`size, stack
      ensures Valid()
      ensures ok == (old(size) < MAX_CODE)
      ensures Code() == if ok then old(Code()) + [i] else old(Code())
    {
      ok := size < MAX_CODE;
      if ok {
        stack[size] := i;
        size := size + 1;
      }
    }

    /** An operator arrives at a level: at most one pending operator is emitted. */
    method Arrive(operators: array<OpCode>, k: nat, op: OpCode) returns (ok: bool, k': nat)
      requires Valid() && operators.Length == MAX_OPERATORS && k <= MAX_OPERATORS
      modifies this`size, stack, operators
      ensures Valid() && k' <= MAX_OPERATORS
      ensures
        var ops := old(operators[..k]);
        var code2 := old(Code()) + Emitted(ops, op);
        && ok == Fits(code2, Pending(ops, op))
        && (ok ==> Code() == code2 && operators[..k'] == Pending(ops, op))
    {
      ghost var ops := operators[..k];
      k' := k;
      if k > 0 && Priority(op) <= Priority(operators[k - 1]) {
        ok := Push(Exec(operators[k - 1]));
        if ok {
          operators[k - 1] := op;
          assert operators[..k] == ops[..k - 1] + [op];
        }
      } else {
        ok := k < MAX_OPERATORS;
        if ok {
          operators[k] := op;
          k' := k + 1;
          assert operators[..k'] == ops + [op];
        }
      }
    }

    /** The operand at p: it may call the compiler again, one level deeper. */
    method ReadOperand(lvl: nat, p: nat, operators: array<OpCode>, k: nat)
        returns (err: Option<Fault>, q: nat, k': nat)
      requires Valid() && p <= |ts| && operators.Length == MAX_OPERATORS && k <= MAX_OPERATORS
      modifies this`size, this`env, stack, operators
      ensures Valid() && k' <= MAX_OPERATORS
      ensures
        match Atom(g, ts, lvl, p, old(Code()), old(operators[..k]), old(env))
        case Rejected(why, e) => err == Some(why) && env == e
        case Read(pos, code, ops, e) =>
          err == None && q == pos && env == e && Code() == code && operators[..k'] == ops
      decreases |ts| - p, 0
    {
      hide Level, Walk, Emitted, Pending;
      q, k' := p, k;
      if p == |ts| {
        return Some(NoOperand), q, k';
      }
      match ts[p] {
        case TNum(n) =>
          var ok := Push(PushNumber(n));
          return if ok then None else Some(Overrun), p + 1, k;
        case TVar(x) =>
          var (env1, id) := g.step(env, x);
          env := env1;
          if id.None? {
            return Some(NoOperand), q, k';
          }
          ghost var code := Code();
          var ok := Push(PushRef(id.value));
          if ok {
            ok := Push(Exec(Load));
          }
          assert ok ==> Code() == code + [PushRef(id.value), Exec(Load)];
          return if ok then None else Some(Overrun), p + 1, k;
        case TOpen =>
          err, q := EvalLevel(lvl + 1, p + 1);
          if err.Some? {
            return;
          }
          if q == |ts| {
            return Some(GroupNotClosed), q, k';
          }
          return None, q + 1, k;
        case TInt =>
          if p + 1 == |ts| || !ts[p + 1].TOpen? {
            return Some(CallNotOpened), q, k';
          }
          err, q := EvalLevel(lvl + 1, p + 2);
          if err.Some? {
            return;
          }
          if q == |ts| {
            return Some(CallNotClosed), q, k';
          }
          q := q + 1;
          var ok;
          ok, k' := Arrive(operators, k, CallInt);
          err := if ok then None else Some(Overrun);
        case _ =>
          return Some(NoOperand), q, k';
      }
    }

    /** _evalCalcN: one parenthesis level. */
    method EvalLevel(lvl: nat, p: nat) returns (err: Option<Fault>, q: nat)
      requires Valid() && p <= |ts|
      modifies this`size, this`env, stack
      ensures Valid()
      ensures
        match Level(g, ts, lvl, p, old(Code()), old(env))
        case Failed(why, e) => err == Some(why) && env == e
        case Done(pos, code, e) => err == None && q == pos && env == e && Code() == code
      decreases |ts| - p, 1
    {
      hide Atom, Emitted, Pending;
      q := p;
      if p == |ts| {
        return Some(EmptyLevel), q;
      }
      if lvl > MAX_LEVEL {
        return Some(TooDeep), q;
      }
      var operators := new OpCode[MAX_OPERATORS];
      var k := 0;
      ghost var whole := Walk(g, ts, lvl, p, Code(), [], env);
      while true
        invariant Valid() && p <= q <= |ts| && 0 <= k <= MAX_OPERATORS == operators.Length
        invariant whole == Walk(g, ts, lvl, q, Code(), operators[..k], env)
        decreases |ts| - q
      {
        ghost var start, code, ops, before := q, Code(), operators[..k], env;
        err, q, k := ReadOperand(lvl, q, operators, k);
        if err.Some? {
          return;
        }
        ghost var r := Atom(g, ts, lvl, start, code, ops, before);
        if q < |ts| && ts[q].TOp? {
          WalkGoesOn(g, ts, lvl, start, code, ops, before, r);
          var ok;
          ok, k := Arrive(operators, k, Binary(ts[q].op));
          if !ok {
            return Some(Overrun), q;
          }
          q := q + 1;
        } else if q == |ts| || (ts[q].TClose? && lvl > 0) {
          WalkEnds(g, ts, lvl, start, code, ops, before, r);
          var ok := EmitRemaining(operators, k);
          return if ok then None else Some(Overrun), q;
        } else {
          return Some(if ts[q].TClose? then StrayClose else NoOperator), q;
        }
      }
    }

    /** The pending operators go to the buffer, last one first. */
    method EmitRemaining(operators: array<OpCode>, k: nat) returns (ok: bool)
      requires Valid() && k <= operators.Length
      modifies this`size, stack
      ensures Valid()
      ensures
        var code2 := old(Code()) + Flush(old(operators[..k]));
        && ok == (|code2| <= MAX_CODE)
        && (ok ==> Code() == code2)
    {
      hide Flush, Fits;
      ghost var code2 := Code() + Flush(operators[..k]);
      FlushLength<N, int>(operators[..k]);
      var i := k;
      while i > 0
        invariant Valid() && 0 <= i <= k
        invariant Code() + Flush(operators[..i]) == code2
        invariant size + i == |code2|
      {
        ghost var ops, before := operators[..i], Code();
        FlushNext(before, ops);
        ok := Push(Exec(operators[i - 1]));
        if !ok {
          return;
        }
        i := i - 1;
        assert ops[..i] == operators[..i];
      }
      ok := true;
      FlushNext(Code(), operators[..0]);
    }
  }

  /** mea_eval_buildStack_alloc: the instructions of a formula, or the reason why there are none. */
  method BuildStack<N(0), S>(g: Resolver<S>, ts: seq<Token<N>>, env: S) returns (out: Outcome<N, S>)
    ensures out == Compile(g, ts, env)
  {
    hide Level;
    var b := new Builder<N, S>(g, ts, env);
    var err, q := b.EvalLevel(0, 0);
    match err
    case None => out := Done(q, b.stack[..b.size], b.env);
    case Some(why) => out := Failed(why, b.env);
  }
}
