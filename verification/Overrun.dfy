/**
  The fixed arrays of the compiler in src/mea_eval.c: ten operators waiting at a level, and
  eighty instructions.  The compiler checks neither, so which formulas keep within them is
  a property of the formulas.
 */
module Overrun {
  import opened Wrappers
  import opened Formula
  import opened Precedence
  import opened Slices
  import opened Compiler

  // ----- Exactly which formulas overrun the arrays ----------------------------------------

  /** The formula keeps within the operator array at every level, and within the instruction buffer. */
  predicate KeepsWithin<N, V>(c: Chain<N, V>) {
    RisesWithin(c, MAX_OPERATORS) && Size(c) <= MAX_CODE
  }

  /**
    A formula nested at most ten deep, whose variables all get an id, overruns the arrays
    exactly when priorities rise more than ten times at some level, or it has more than
    eighty instructions; otherwise it compiles.
   */
  lemma {:induction false} OverrunExactly<N, S>(g: Resolver<S>, c: Chain<N, string>, env: S)
    requires Bind(g, c, env).chain.Some? && Nesting(Bind(g, c, env).chain.value) <= MAX_LEVEL
    ensures
      var b, out := Bind(g, c, env).chain.value, Compile(g, Text(c), env);
      && (OverrunBy(out) <==> !KeepsWithin(b))
      && (out.Done? <==> KeepsWithin(b))
  {
    var b := Bind(g, c, env).chain.value;
    OperatorsFitExactly(b, MAX_OPERATORS);
    WithinAtFirst(b);
    TextParts(c);
    OverrunIsNotDone(Compile(g, Text(c), env));
    hide *;
    CompileIsWalk(g, Text(c), env);
    AtWhole(Text(c), Text(c));
    WithinMeans(b, 0, 0, []);
    WalkExactly(g, Text(c), 0, 0, [], [], env, c);
  }

  lemma WithinAtFirst<N>(b: Chain<N, int>)
    ensures Within(b, 0, 0, []) <==>
            Nesting(b) <= MAX_LEVEL && OperatorsFit(b, [], MAX_OPERATORS) && Size(b) <= MAX_CODE
  {
  }

  lemma OverrunIsNotDone<N, S>(out: Outcome<N, S>)
    ensures OverrunBy(out) ==> !out.Done?
  {
  }

  // ----- Numbers joined by operators --------------------------------------------------------

  function Joining<N, V>(n: N, ops: seq<Op>): Chain<N, V> {
    if ops == [] then Last(Number(n)) else Link(Number(n), ops[0], Joining(n, ops[1..]))
  }

  function Priorities(ops: seq<Op>): seq<int> {
    if ops == [] then [] else [Priority(Binary(ops[0]))] + Priorities(ops[1..])
  }

  lemma {:induction false} JoiningIs<N, V>(n: N, ops: seq<Op>, cap: nat)
    ensures
      var c: Chain<N, V> := Joining(n, ops);
      Arrivals(c) == Priorities(ops) && InnerRisesWithin(c, cap) && Nesting(c) == 0 && Size(c) == 2 * |ops| + 1
  {
    var o: Operand<N, V> := Number(n);
    assert OperandRisesWithin(o, cap) && OperandNesting(o) == 0 && OperandSize(o) == 1;
    if ops != [] {
      JoiningIs<N, V>(n, ops[1..], cap);
      assert Arrivals(Joining<N, V>(n, ops)) == [] + ([Priority(Binary(ops[0]))] + Priorities(ops[1..]));
    }
  }

  lemma {:induction false} JoiningBinds<N, S>(g: Resolver<S>, n: N, ops: seq<Op>, env: S)
    ensures Bind(g, Joining<N, string>(n, ops), env) == Bound(Some(Joining<N, int>(n, ops)), env)
  {
    if ops != [] {
      JoiningBinds(g, n, ops[1..], env);
    }
  }

  /** Numbers joined by operators overrun the arrays exactly when there are forty operators, or eleven rises. */
  lemma JoiningOverruns<N, S>(g: Resolver<S>, n: N, ops: seq<Op>, env: S)
    ensures OverrunBy(Compile(g, Text(Joining<N, string>(n, ops)), env)) <==>
            Rises(0, Priorities(ops)) > MAX_OPERATORS || |ops| >= 40
  {
    JoiningBinds(g, n, ops, env);
    JoiningIs<N, int>(n, ops, MAX_OPERATORS);
    hide Compile, Text, Joining, Rises, Priorities, InnerRisesWithin, Bind, Nesting, Size;
    OverrunExactly(g, Joining<N, string>(n, ops), env);
  }

  /** `+ * + * ...`, k times. */
  function Alternating(k: nat): (ops: seq<Op>)
    ensures |ops| == 2 * k
  {
    if k == 0 then [] else [Plus, Times] + Alternating(k - 1)
  }

  lemma {:induction false} AlternatingRises(k: nat, top: int)
    requires top == 0 || top == 2
    ensures Rises(top, Priorities(Alternating(k))) == k + if top == 0 && k > 0 then 1 else 0
  {
    if k > 0 {
      AlternatingRises(k - 1, 2);
      var rest := Alternating(k - 1);
      assert Alternating(k)[1..] == [Times] + rest && Alternating(k)[1..][1..] == rest;
      var ps := Priorities(rest);
      assert Priorities(Alternating(k)) == [1] + ([2] + ps);
      assert ([1] + ([2] + ps))[1..] == [2] + ps && ([2] + ps)[1..] == ps;
    }
  }

  /**
    `#1` followed by k times `+#1*#1`: an operator is written past the end of the array from
    the tenth time on, with 41 instructions and no parenthesis.
   */
  lemma OverrunExample<N, S>(g: Resolver<S>, one: N, k: nat, env: S)
    ensures OverrunBy(Compile(g, Text(Joining<N, string>(one, Alternating(k))), env)) <==> k >= 10
    ensures Size(Joining<N, string>(one, Alternating(k))) == 4 * k + 1
    ensures Nesting(Joining<N, string>(one, Alternating(k))) == 0
  {
    JoiningOverruns(g, one, Alternating(k), env);
    AlternatingRises(k, 0);
    JoiningIs<N, string>(one, Alternating(k), 0);
  }

  // ----- Short texts, formulas or not ------------------------------------------------------

  /** The instructions that a token may bring. */
  function Weight<N>(t: Token<N>): nat {
    match t
    case TNum(_) => 1
    case TVar(_) => 2
    case TOp(_) => 1
    case TInt => 1
    case _ => 0
  }

  function Weights<N>(ts: seq<Token<N>>): nat {
    if ts == [] then 0 else Weight(ts[0]) + Weights(ts[1..])
  }

  function Operators<N>(ts: seq<Token<N>>): nat {
    if ts == [] then 0 else (if ts[0].TOp? || ts[0].TInt? then 1 else 0) + Operators(ts[1..])
  }

  /** At most ten operators and function calls, and tokens for at most eighty instructions. */
  predicate Modest<N>(ts: seq<Token<N>>) {
    Operators(ts) <= MAX_OPERATORS && Weights(ts) <= MAX_CODE
  }

  lemma FromHere<N>(ts: seq<Token<N>>, p: nat)
    requires p <= |ts|
    ensures p < |ts| ==>
      && Weights(ts[p..]) == Weight(ts[p]) + Weights(ts[p + 1..])
      && Operators(ts[p..]) == (if ts[p].TOp? || ts[p].TInt? then 1 else 0) + Operators(ts[p + 1..])
  {
    if p < |ts| {
      assert ts[p..][1..] == ts[p + 1..];
    }
  }

  /** Whatever the text, well formed or not: a modest one overruns nothing. */
  lemma ModestNeverOverruns<N, S>(g: Resolver<S>, ts: seq<Token<N>>, env: S)
    requires Modest(ts)
    ensures !OverrunBy(Compile(g, ts, env))
  {
    assert ts[0..] == ts;
    if ts != [] {
      WalkModest(g, ts, 0, 0, [], [], env);
    }
  }

  lemma {:induction false} WalkModest<N, S>(
      g: Resolver<S>, ts: seq<Token<N>>, lvl: nat, p: nat, code: seq<Instr<N, int>>, ops: seq<OpCode>, env: S)
    requires p <= |ts|
    requires |ops| + Operators(ts[p..]) <= MAX_OPERATORS && |code| + |ops| + Weights(ts[p..]) <= MAX_CODE
    ensures
      var out := Walk(g, ts, lvl, p, code, ops, env);
      && !OverrunBy(out)
      && (out.Done? ==>
            && Operators(ts[out.pos..]) <= Operators(ts[p..])
            && |out.code| + Weights(ts[out.pos..]) <= |code| + |ops| + Weights(ts[p..]))
    decreases |ts| - p, 1
  {
    hide Atom, Emitted, Pending, Flush, Weights, Operators;
    AtomModest(g, ts, lvl, p, code, ops, env);
    var r := Atom(g, ts, lvl, p, code, ops, env);
    if r.Read? {
      FromHere(ts, r.pos);
      FlushLength<N, int>(r.ops);
      if r.pos < |ts| && ts[r.pos].TOp? {
        var op := Binary(ts[r.pos].op);
        EmittedLength<N, int>(r.ops, op);
        PendingGrows(r.ops, op);
        WalkModest(g, ts, lvl, r.pos + 1, r.code + Emitted(r.ops, op), Pending(r.ops, op), r.env);
      }
    }
  }

  lemma PendingGrows(ops: seq<OpCode>, op: OpCode)
    ensures |ops| <= |Pending(ops, op)| <= |ops| + 1
  {
  }

  lemma {:induction false} AtomModest<N, S>(
      g: Resolver<S>, ts: seq<Token<N>>, lvl: nat, p: nat, code: seq<Instr<N, int>>, ops: seq<OpCode>, env: S)
    requires p <= |ts|
    requires |ops| + Operators(ts[p..]) <= MAX_OPERATORS && |code| + |ops| + Weights(ts[p..]) <= MAX_CODE
    ensures
      var r := Atom(g, ts, lvl, p, code, ops, env);
      && (r.Rejected? ==> !r.why.Overrun?)
      && (r.Read? ==>
            && |ops| <= |r.ops| && |r.ops| + Operators(ts[r.pos..]) <= |ops| + Operators(ts[p..])
            && |r.code| + |r.ops| + Weights(ts[r.pos..]) <= |code| + |ops| + Weights(ts[p..]))
    decreases |ts| - p, 0
  {
    hide Walk, Emitted, Pending, Weights, Operators;
    FromHere(ts, p);
    if p + 1 < |ts| {
      FromHere(ts, p + 1);
      if ts[p].TOpen? {
        InsideModest(g, ts, lvl, p + 1, code, env);
      } else if ts[p].TInt? && ts[p + 1].TOpen? {
        InsideModest(g, ts, lvl, p + 2, code, env);
        EmittedLength<N, int>(ops, CallInt);
        PendingGrows(ops, CallInt);
      }
    }
  }

  /** One level deeper, and on behind its closing parenthesis. */
  lemma {:induction false} InsideModest<N, S>(
      g: Resolver<S>, ts: seq<Token<N>>, lvl: nat, p: nat, code: seq<Instr<N, int>>, env: S)
    requires p <= |ts| && Operators(ts[p..]) <= MAX_OPERATORS && |code| + Weights(ts[p..]) <= MAX_CODE
    ensures
      var out := Level(g, ts, lvl + 1, p, code, env);
      && !OverrunBy(out)
      && (out.Done? && out.pos < |ts| ==>
            && Operators(ts[out.pos + 1..]) <= Operators(ts[p..])
            && |out.code| + Weights(ts[out.pos + 1..]) <= |code| + Weights(ts[p..]))
    decreases |ts| - p, 2
  {
    hide Walk, Weights, Operators;
    if p < |ts| && lvl < MAX_LEVEL {
      WalkModest(g, ts, lvl + 1, p, code, [], env);
      var out := Level(g, ts, lvl + 1, p, code, env);
      if out.Done? {
        FromHere(ts, out.pos);
      }
    }
  }
}
