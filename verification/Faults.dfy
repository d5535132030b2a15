/**
  The error codes of the compiler in src/mea_eval.c: which texts get which, and what the
  variable callback has registered by then.
 */
module Faults {
  import opened Wrappers
  import opened Formula
  import opened Precedence
  import opened Slices
  import opened Compiler

  /** A token that no operand starts with. */
  predicate StartsNothing<N>(t: Token<N>) {
    t.TClose? || t.TOp? || t.TJunk?
  }

  // ----- At the first operand -----------------------------------------------------------------

  /** An empty text, a text that starts with no operand, a refused variable, and a function without its parenthesis. */
  lemma FirstOperandFaults<N, S>(g: Resolver<S>, ts: seq<Token<N>>, env: S)
    ensures ts == [] ==> Compile(g, ts, env) == Failed(EmptyLevel, env)
    ensures ts != [] && StartsNothing(ts[0]) ==> Compile(g, ts, env) == Failed(NoOperand, env)
    ensures ts != [] && ts[0].TVar? && g.step(env, ts[0].name).1.None? ==>
      Compile(g, ts, env) == Failed(NoOperand, g.step(env, ts[0].name).0)
    ensures ts != [] && ts[0].TInt? && (|ts| == 1 || !ts[1].TOpen?) ==>
      Compile(g, ts, env) == Failed(CallNotOpened, env)
    ensures ts == [TOpen] || ts == [TInt, TOpen] ==> Compile(g, ts, env) == Failed(EmptyLevel, env)
  {
    hide Checked, Walk;
    if ts != [] {
      AtomLeaf(g, ts, 0, 0, [], [], env);
      if Atom(g, ts, 0, 0, [], [], env).Rejected? {
        WalkStops(g, ts, 0, 0, [], [], env);
      }
      if ts == [TOpen] || ts == [TInt, TOpen] {
        assert Level(g, ts, 1, |ts|, [], env) == Failed(EmptyLevel, env);
      }
    }
  }

  /** Eleven parentheses opened at the start: too deep for whatever follows, and an empty level where nothing does. */
  lemma TooDeepExactly<N, S>(g: Resolver<S>, ts: seq<Token<N>>, env: S)
    requires |ts| >= 11 && forall i :: 0 <= i < 11 ==> ts[i].TOpen?
    ensures Compile(g, ts, env) == Failed(if |ts| == 11 then EmptyLevel else TooDeep, env)
  {
    OpenedFurther(g, ts, 0, env);
  }

  lemma {:induction false} OpenedFurther<N, S>(g: Resolver<S>, ts: seq<Token<N>>, lvl: nat, env: S)
    requires lvl <= 11 <= |ts| && forall i :: 0 <= i < 11 ==> ts[i].TOpen?
    ensures Level(g, ts, lvl, lvl, [], env) == Failed(if |ts| == 11 then EmptyLevel else TooDeep, env)
    decreases 11 - lvl
  {
    if lvl < 11 {
      OpenedFurther(g, ts, lvl + 1, env);
      assert Atom(g, ts, lvl, lvl, [], [], env) == Rejected(if |ts| == 11 then EmptyLevel else TooDeep, env);
    }
  }

  // ----- After a chain --------------------------------------------------------------------------

  lemma WalkBreaksOff<N, S>(g: Resolver<S>, ts: seq<Token<N>>, lvl: nat, p: nat, code: seq<Instr<N, int>>,
                            ops: seq<OpCode>, env: S, r: AtomOutcome<N, S>)
    requires p <= |ts| && Atom(g, ts, lvl, p, code, ops, env) == r && r.Read?
    requires r.pos < |ts| && !ts[r.pos].TOp? && !Ends(ts, lvl, r.pos)
    ensures Walk(g, ts, lvl, p, code, ops, env) == Failed(if ts[r.pos].TClose? then StrayClose else NoOperator, r.env)
  {
    hide Atom, Flush;
  }

  lemma WalkWithoutOperand<N, S>(g: Resolver<S>, ts: seq<Token<N>>, lvl: nat, p: nat, code: seq<Instr<N, int>>,
                                 ops: seq<OpCode>, env: S)
    requires p <= |ts| && (p < |ts| ==> StartsNothing(ts[p]))
    ensures Walk(g, ts, lvl, p, code, ops, env) == Failed(NoOperand, env)
  {
    AtomLeaf(g, ts, lvl, p, code, ops, env);
    WalkStops(g, ts, lvl, p, code, ops, env);
    hide Walk, Atom;
  }

  /** What follows a chain that is within the limits, where it neither ends the level nor goes on with an operand. */
  lemma {:induction false} WalkBreaks<N, S>(
      g: Resolver<S>, ts: seq<Token<N>>, lvl: nat, p: nat, code: seq<Instr<N, int>>, ops: seq<OpCode>, env: S,
      c: Chain<N, string>)
    requires At(ts, p, Text(c)) && p + |Text(c)| < |ts|
    requires Bind(g, c, env).chain.Some? && Within(Bind(g, c, env).chain.value, lvl, |code|, ops)
    ensures
      var q, env1, out := p + |Text(c)|, Bind(g, c, env).env, Walk(g, ts, lvl, p, code, ops, env);
      && (ts[q].TClose? && lvl == 0 ==> out == Failed(StrayClose, env1))
      && (!ts[q].TClose? && !ts[q].TOp? ==> out == Failed(NoOperator, env1))
      && (ts[q].TOp? && (q + 1 == |ts| || StartsNothing(ts[q + 1])) ==>
            OverrunBy(out) || out == Failed(NoOperand, env1))
    decreases c
  {
    hide *;
    BindParts(g, c, env);
    TextParts(c);
    AtBound(ts, p, Text(c));
    var b, o := Bind(g, c, env).chain.value, c.operand;
    var ops1, head := OperandPending(b.operand, ops), OperandCode(b.operand, ops);
    WithinMeans(b, lvl, |code|, ops);
    NestingParts(b);
    WithinParts(b, lvl, |code|, ops);
    OperandFitsMeans(b.operand, |code|, ops);
    var q := p + |OperandText(o)|;
    var r := Atom(g, ts, lvl, p, code, ops, env);
    if c.Link? {
      LinkAt(ts, p, c);
      AtomExactly(g, ts, lvl, p, code, ops, env, o);
      WalkGoesOn(g, ts, lvl, p, code, ops, env, r);
      var e, ops2 := Emitted<N, int>(ops1, Binary(c.op)), Pending(ops1, Binary(c.op));
      FitsMeans(code + head + e, ops2);
      WalkBreaks(g, ts, lvl, q + 1, code + head + e, ops2, BindOperand(g, o, env).env, c.rest);
    } else {
      AtomExactly(g, ts, lvl, p, code, ops, env, o);
      EndsMeans(ts, lvl, q);
      if ts[q].TOp? {
        WalkGoesOn(g, ts, lvl, p, code, ops, env, r);
        OverrunMeans<N, S>(r.env);
        if q + 1 == |ts| || StartsNothing(ts[q + 1]) {
          var e, ops2 := Emitted<N, int>(ops1, Binary(ts[q].op)), Pending(ops1, Binary(ts[q].op));
          WalkWithoutOperand(g, ts, lvl, q + 1, code + head + e, ops2, r.env);
        }
      } else if !Ends(ts, lvl, q) {
        WalkBreaksOff(g, ts, lvl, p, code, ops, env, r);
      }
    }
  }

  lemma EndsMeans<N>(ts: seq<Token<N>>, lvl: nat, q: nat)
    ensures Ends(ts, lvl, q) <==> q == |ts| || (q < |ts| && ts[q].TClose? && lvl > 0)
  {
  }

  /**
    A formula and more: a parenthesis that closes nothing, a token that is no operator, or an
    operator with no operand behind it.  Each variable before it has been asked for.
   */
  lemma AfterFormulaFaults<N, S>(g: Resolver<S>, c: Chain<N, string>, t: Token<N>, more: seq<Token<N>>, env: S)
    requires Bind(g, c, env).chain.Some? && Within(Bind(g, c, env).chain.value, 0, 0, [])
    ensures
      var env1, out := Bind(g, c, env).env, Compile(g, Text(c) + [t] + more, env);
      && (t.TClose? ==> out == Failed(StrayClose, env1))
      && (!t.TClose? && !t.TOp? ==> out == Failed(NoOperator, env1))
      && (t.TOp? && (more == [] || StartsNothing(more[0])) ==> OverrunBy(out) || out == Failed(NoOperand, env1))
  {
    var text := Text(c);
    var ts := text + [t] + more;
    assert ts[..|text|] == text && ts[|text|] == t;
    assert ts[|text| + 1..] == more;
    CompileIsWalk(g, ts, env);
    hide Compile, Walk, Text, Bind, Within;
    WalkBreaks(g, ts, 0, 0, [], [], env, c);
  }

  // ----- Parentheses that do not close ------------------------------------------------------------

  /** A parenthesis, or a function's, that the text never closes. */
  lemma UnclosedFaults<N, S>(g: Resolver<S>, c: Chain<N, string>, env: S)
    requires Bind(g, c, env).chain.Some? && Within(Bind(g, c, env).chain.value, 1, 0, [])
    ensures Compile(g, [TOpen] + Text(c), env) == Failed(GroupNotClosed, Bind(g, c, env).env)
    ensures Compile(g, [TInt, TOpen] + Text(c), env) == Failed(CallNotClosed, Bind(g, c, env).env)
  {
    UnclosedAt(g, [TOpen], c, env);
    UnclosedAt(g, [TInt, TOpen], c, env);
  }

  lemma UnclosedAt<N, S>(g: Resolver<S>, open: seq<Token<N>>, c: Chain<N, string>, env: S)
    requires open == [TOpen] || open == [TInt, TOpen]
    requires Bind(g, c, env).chain.Some? && Within(Bind(g, c, env).chain.value, 1, 0, [])
    ensures Compile(g, open + Text(c), env) ==
            Failed(if open == [TOpen] then GroupNotClosed else CallNotClosed, Bind(g, c, env).env)
  {
    hide Walk, Text, Bind, Within, OperandPending;
    var ts, n := open + Text(c), |open|;
    assert ts[n..n + |Text(c)|] == Text(c) && ts[0] == open[0] && ts[n - 1] == TOpen;
    WithinMeans(Bind(g, c, env).chain.value, 1, 0, []);
    WalkExactly(g, ts, 1, n, [], [], env, c);
    WalkStops(g, ts, 0, 0, [], [], env);
    TextNotEmpty(c);
  }

  lemma TextNotEmpty<N>(c: Chain<N, string>)
    ensures |Text(c)| > 0
  {
  }

  /** A formula in parentheses, then anything but their end, is refused for that. */
  lemma InsideFaults<N, S>(g: Resolver<S>, c: Chain<N, string>, t: Token<N>, more: seq<Token<N>>, env: S)
    requires Bind(g, c, env).chain.Some? && Within(Bind(g, c, env).chain.value, 1, 0, [])
    requires !t.TClose? && !t.TOp?
    ensures Compile(g, [TOpen] + Text(c) + [t] + more, env) == Failed(NoOperator, Bind(g, c, env).env)
  {
    hide Walk, Text, Bind, Within, OperandPending;
    var text := Text(c);
    var ts := [TOpen] + text + [t] + more;
    assert ts[1..1 + |text|] == text && ts[0] == TOpen && ts[1 + |text|] == t;
    WalkBreaks(g, ts, 1, 1, [], [], env, c);
    WalkStops(g, ts, 0, 0, [], [], env);
  }
}
