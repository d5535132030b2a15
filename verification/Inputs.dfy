/**
  The input table of src/automator.c: what an assignment does to an input's value and
  change mark, which output rules fire on the marks, and the match/play/reset cycle that
  src/automatorServer.c drives.
 */
module Inputs {
  import opened Wrappers

  /** Undef is the type -1 that an expression without a value leaves. */
  datatype Value = Float(x: real) | Str(s: string) | Bool(b: bool) | Undef

  datatype Mark = New | Rise | Fall | Stay | Change | TypeChange | Unknown

  datatype Entry = Entry(v: Value, mark: Mark)

  /**
    One call of the assignment: no value means the entry's own, `force` is a mark given by
    the caller, and `junk` is the byte that the two unions hold when neither side has a type.
   */
  datatype Write = Write(name: string, v: Option<Value>, update: bool, force: Option<Mark>, junk: int)

  type Table = map<string, Entry>

  // ----- Assignment ------------------------------------------------------------------

  /** The mark of an updating assignment to an entry that exists. */
  function Edge(e: Entry, v: Value, junk: int): Mark {
    match (e.v, v)
    case (Float(a), Float(b)) =>
      if e.mark.Unknown? then (if b <= 0.0 then Fall else Rise)
      else if a == b then Stay else if a < b then Rise else Fall
    case (Bool(a), Bool(b)) =>
      if e.mark.Unknown? then (if b then Rise else Fall)
      else if a == b then Stay else if b then Rise else Fall
    case (Undef, Undef) =>
      if e.mark.Unknown? then Fall
      else if junk == 0 then Stay else if junk < 0 then Rise else Fall
    case (Str(a), Str(b)) => if !e.mark.Unknown? && a == b then Stay else Change
    case (_, Str(_)) => TypeChange
    case (_, Float(b)) => if b == 0.0 then Fall else Rise
    case (_, Bool(b)) => if b then Rise else Fall
    case (_, Undef) => Unknown
  }

  /**
    Exactly which updating assignments go unnoticed: those of the value that a known input
    already has; only a value without a type makes an input unknown.
   */
  lemma StayExactly(e: Entry, v: Value, junk: int)
    ensures !v.Undef? ==> (Edge(e, v, junk).Stay? <==> !e.mark.Unknown? && e.v == v)
    ensures Edge(e, v, junk).Unknown? <==> v.Undef? && !e.v.Undef?
    ensures Edge(e, v, junk).TypeChange? <==> v.Str? && !e.v.Str?
  {
  }

  function Rewritten(e: Entry, w: Write): Entry {
    var v := if w.v.Some? then w.v.value else e.v;
    Entry(v, if !w.update then Unknown else if w.force.Some? then w.force.value else Edge(e, v, w.junk))
  }

  function Created(w: Write): Entry
    requires w.v.Some?
  {
    Entry(w.v.value, if w.force.Some? then w.force.value else if w.update then New else Unknown)
  }

  function Put(t: Table, w: Write): Table {
    if w.name in t then t[w.name := Rewritten(t[w.name], w)]
    else if w.v.Some? then t[w.name := Created(w)]
    else t
  }

  /** Whether an assignment is announced to the rest of the program. */
  predicate Announced(t: Table, w: Write) {
    if w.name in t then !Rewritten(t[w.name], w).mark.Stay? && !Rewritten(t[w.name], w).mark.Unknown? else w.v.Some?
  }

  /** An updating assignment of a typed value, no mark forced, is announced exactly when it changes what is known. */
  lemma AnnouncedExactly(t: Table, w: Write)
    requires w.update && w.force.None? && w.v.Some? && !w.v.value.Undef?
    ensures !Announced(t, w) <==> w.name in t && !t[w.name].mark.Unknown? && t[w.name].v == w.v.value
  {
    if w.name in t {
      StayExactly(t[w.name], w.v.value, w.junk);
    }
  }

  function PutAll(t: Table, ws: seq<Write>): Table {
    if ws == [] then t else Put(PutAll(t, ws[..|ws| - 1]), ws[|ws| - 1])
  }

  // ----- The end of a cycle ---------------------------------------------------------

  function Settled(e: Entry): Entry {
    if e.mark.Unknown? || e.mark.New? then e else e.(mark := Stay)
  }

  function Reset(t: Table): Table {
    map n | n in t :: Settled(t[n])
  }

  predicate AtRest(t: Table) {
    forall n :: n in t ==> t[n].mark.New? || t[n].mark.Stay? || t[n].mark.Unknown?
  }

  lemma ResetRests(t: Table)
    ensures AtRest(Reset(t))
  {
  }

  // ----- Output rules -------------------------------------------------------------------

  /**
    What a rule that fires does; only the last two touch the table.  An assignment is what its
    expressions come to on the table as the rule finds it, if they come to one.
   */
  datatype Action = Send | Timer | SetInput(w: Table -> Option<Write>) | ClearState(name: string, junk: int)

  datatype OutputRule = OutputRule(input: string, kind: int, action: Action)

  const ON_RISE := 1
  const ON_FALL := 2
  const ON_CHANGE := 3
  const ON_NEW := 4

  predicate Wanted(kind: int, mark: Mark) {
    || (kind == ON_RISE && mark.Rise?)
    || (kind == ON_FALL && mark.Fall?)
    || (kind == ON_CHANGE && (mark.Change? || mark.Rise? || mark.Fall? || mark.New?))
    || (kind == ON_NEW && mark.New?)
  }

  predicate Fires(t: Table, r: OutputRule) {
    r.input in t && Wanted(r.kind, t[r.input].mark)
  }

  /** A rule with a condition of no known kind is dropped, once its input exists. */
  predicate Dropped(t: Table, r: OutputRule) {
    r.input in t && !(ON_RISE <= r.kind <= ON_NEW)
  }

  function Writes(a: Action, t: Table): seq<Write> {
    match a
    case SetInput(w) => if w(t).Some? then [w(t).value.(force := None)] else []
    case ClearState(n, junk) => [Write(n, None, true, Some(Unknown), junk)]
    case _ => []
  }

  /** The writes made by the rules that fire, in order. */
  function PlayLog(t: Table, rules: seq<OutputRule>): seq<Write> {
    if rules == [] then []
    else
      var before := PlayLog(t, rules[..|rules| - 1]);
      var now, last := PutAll(t, before), rules[|rules| - 1];
      before + if Fires(now, last) then Writes(last.action, now) else []
  }

  /** The table as the k-th rule finds it. */
  function Seen(t: Table, rules: seq<OutputRule>, k: nat): Table
    requires k <= |rules|
  {
    PutAll(t, PlayLog(t, rules[..k]))
  }

  function Kept(t: Table, rules: seq<OutputRule>): seq<OutputRule> {
    if rules == [] then []
    else
      var last := rules[|rules| - 1];
      Kept(t, rules[..|rules| - 1]) + if Dropped(Seen(t, rules, |rules| - 1), last) then [] else [last]
  }

  lemma {:induction false} PutAllConcat(t: Table, a: seq<Write>, b: seq<Write>)
    ensures PutAll(t, a + b) == PutAll(PutAll(t, a), b)
  {
    if b == [] {
      assert a + b == a;
    } else {
      PutAllConcat(t, a, b[..|b| - 1]);
      assert (a + b)[..|a + b| - 1] == a + b[..|b| - 1];
    }
  }

  // ----- The table as the program updates it --------------------------------------------

  class InputsTable {
    var entries: Table

    constructor ()
      ensures entries == map[]
    {
      entries := map[];
    }

    method AddToInputs(w: Write) returns (announced: bool)
      modifies this
      ensures entries == Put(old(entries), w) && announced == Announced(old(entries), w)
    {
      announced := false;
      if w.name in entries {
        var e := entries[w.name];
        var v := if w.v.Some? then w.v.value else e.v;
        var mark := Unknown;
        if w.update {
          if w.force.Some? {
            mark := w.force.value;
          } else {
            mark := Edge(e, v, w.junk);
          }
        }
        entries := entries[w.name := Entry(v, mark)];
        announced := mark != Stay && mark != Unknown;
      } else if w.v.Some? {
        var mark := Unknown;
        if w.force.Some? {
          mark := w.force.value;
        } else if w.update {
          mark := New;
        }
        entries := entries[w.name := Entry(w.v.value, mark)];
        announced := true;
      }
    }

    method ResetChangeFlags()
      modifies this
      ensures entries == Reset(old(entries))
    {
      ghost var t := entries;
      var left := entries.Keys;
      while left != {}
        invariant left <= t.Keys && entries.Keys == t.Keys
        invariant forall n :: n in t ==> entries[n] == if n in left then t[n] else Settled(t[n])
        decreases left
      {
        var n :| n in left;
        var e := entries[n];
        if e.mark != Unknown && e.mark != New {
          entries := entries[n := e.(mark := Stay)];
        }
        left := left - {n};
      }
      assert entries == Reset(t);
    }

    method PlayOutputRules(rules: seq<OutputRule>) returns (kept: seq<OutputRule>, fired: seq<bool>)
      modifies this
      ensures entries == Seen(old(entries), rules, |rules|)
      ensures kept == Kept(old(entries), rules)
      ensures |fired| == |rules|
      ensures forall k :: 0 <= k < |rules| ==> fired[k] == Fires(Seen(old(entries), rules, k), rules[k])
    {
      hide Put, Seen, Kept, PutAll, PlayLog;
      ghost var t := entries;
      kept, fired := [], [];
      PlayStarts(t, rules);
      for i := 0 to |rules|
        invariant entries == Seen(t, rules, i)
        invariant kept == Kept(t, rules[..i])
        invariant |fired| == i
        invariant forall k :: 0 <= k < i ==> fired[k] == Fires(Seen(t, rules, k), rules[k])
      {
        var r := rules[i];
        PlayStep(t, rules, i);
        var fires := false;
        if r.input in entries {
          var mark := entries[r.input].mark;
          if r.kind == ON_RISE {
            fires := mark.Rise?;
          } else if r.kind == ON_FALL {
            fires := mark.Fall?;
          } else if r.kind == ON_CHANGE {
            fires := mark.Change? || mark.Rise? || mark.Fall? || mark.New?;
          } else if r.kind == ON_NEW {
            fires := mark.New?;
          }
          if ON_RISE <= r.kind <= ON_NEW {
            kept := kept + [r];
          }
        } else {
          kept := kept + [r];
        }
        fired := fired + [fires];
        if fires {
          match r.action
          case SetInput(w) =>
            var write := w(entries);
            if write.Some? {
              var _ := AddToInputs(write.value.(force := None));
            }
          case ClearState(n, junk) => var _ := AddToInputs(Write(n, None, true, Some(Unknown), junk));
          case _ =>
        }
      }
      assert rules[..|rules|] == rules;
    }

    /** One turn of the automaton: the input rules' assignments, the output rules, the reset. */
    method Turn(ws: seq<Write>, rules: seq<OutputRule>) returns (kept: seq<OutputRule>, fired: seq<bool>)
      modifies this
      ensures entries == After(old(entries), Cycle(ws, rules))
      ensures kept == Kept(PutAll(old(entries), ws), rules)
      ensures |fired| == |rules|
      ensures forall k :: 0 <= k < |rules| ==> fired[k] == FiresAt(old(entries), Cycle(ws, rules), k)
    {
      ghost var t := entries;
      assert ws[..0] == [];
      for i := 0 to |ws|
        invariant entries == PutAll(t, ws[..i])
      {
        assert ws[..i + 1][..i] == ws[..i];
        var _ := AddToInputs(ws[i]);
      }
      assert ws[..|ws|] == ws;
      kept, fired := PlayOutputRules(rules);
      ResetChangeFlags();
    }
  }

  lemma PlayStep(t: Table, rules: seq<OutputRule>, i: nat)
    requires i < |rules|
    ensures
      var s, a := Seen(t, rules, i), rules[i].action;
      Seen(t, rules, i + 1) ==
      if !Fires(s, rules[i]) then s
      else if a.SetInput? then (if a.w(s).Some? then Put(s, a.w(s).value.(force := None)) else s)
      else if a.ClearState? then Put(s, Write(a.name, None, true, Some(Unknown), a.junk))
      else s
    ensures Kept(t, rules[..i + 1]) ==
            Kept(t, rules[..i]) + if Dropped(Seen(t, rules, i), rules[i]) then [] else [rules[i]]
  {
    hide Put, Fires, Dropped;
    var now := rules[..i + 1];
    assert now[..i] == rules[..i];
    var more := if Fires(Seen(t, rules, i), rules[i]) then Writes(rules[i].action, Seen(t, rules, i)) else [];
    PutAllConcat(t, PlayLog(t, rules[..i]), more);
    PutOne(Seen(t, rules, i), more);
    assert Seen(t, now, i) == Seen(t, rules, i);
  }

  lemma PutOne(t: Table, ws: seq<Write>)
    ensures PutAll(t, []) == t
    ensures |ws| == 1 ==> PutAll(t, ws) == Put(t, ws[0])
  {
    if |ws| == 1 {
      assert PutAll(t, ws[..0]) == t;
    }
  }

  lemma PlayStarts(t: Table, rules: seq<OutputRule>)
    ensures Seen(t, rules, 0) == t && Kept(t, rules[..0]) == []
  {
  }

  // ----- Runs of cycles --------------------------------------------------------------------

  /** A cycle: what the input rules assign, then the output rules. */
  datatype Cycle = Cycle(ws: seq<Write>, rules: seq<OutputRule>)

  /** All the writes of a cycle up to the k-th output rule. */
  function Log(t: Table, c: Cycle, k: nat): seq<Write>
    requires k <= |c.rules|
  {
    c.ws + PlayLog(PutAll(t, c.ws), c.rules[..k])
  }

  predicate FiresAt(t: Table, c: Cycle, k: nat)
    requires k < |c.rules|
  {
    Fires(Seen(PutAll(t, c.ws), c.rules, k), c.rules[k])
  }

  function After(t: Table, c: Cycle): Table {
    Reset(Seen(PutAll(t, c.ws), c.rules, |c.rules|))
  }

  /** The table at the start of the k-th cycle of a run. */
  function Start(t: Table, run: seq<Cycle>, k: nat): Table
    requires k <= |run|
  {
    if k == 0 then t else After(Start(t, run, k - 1), run[k - 1])
  }

  /** The j-th write is the last one to `name`. */
  predicate LastTo(ws: seq<Write>, name: string, j: nat) {
    && j < |ws| && ws[j].name == name
    && forall i :: j < i < |ws| ==> ws[i].name != name
  }

  predicate Untouched(ws: seq<Write>, name: string) {
    forall i :: 0 <= i < |ws| ==> ws[i].name != name
  }

  predicate SameEntry(t: Table, u: Table, name: string) {
    if name in t then name in u && t[name] == u[name] else name !in u
  }

  lemma PutElsewhere(t: Table, w: Write, name: string)
    requires w.name != name
    ensures SameEntry(Put(t, w), t, name)
  {
  }

  lemma LastOfLonger(ws: seq<Write>, name: string, j: nat)
    requires ws != []
    ensures ws[|ws| - 1].name == name ==> LastTo(ws, name, |ws| - 1)
    ensures ws[|ws| - 1].name != name && LastTo(ws[..|ws| - 1], name, j) ==> j < |ws| - 1 && LastTo(ws, name, j)
  {
  }

  /** An entry is as the last write to it left it, or as it was. */
  lemma {:induction false} Provenance(t: Table, ws: seq<Write>, name: string)
    ensures Untouched(ws, name) ==> SameEntry(PutAll(t, ws), t, name)
    ensures !Untouched(ws, name) ==>
      exists j: nat :: j < |ws| && LastTo(ws, name, j) && SameEntry(PutAll(t, ws), PutAll(t, ws[..j + 1]), name)
  {
    hide Put, LastTo;
    if ws != [] {
      var n := |ws| - 1;
      if ws[n].name == name {
        LastOfLonger(ws, name, n);
        assert ws[..n + 1] == ws;
      } else {
        Provenance(t, ws[..n], name);
        PutElsewhere(PutAll(t, ws[..n]), ws[n], name);
        if !Untouched(ws[..n], name) {
          var j: nat :| j < n && LastTo(ws[..n], name, j)
            && SameEntry(PutAll(t, ws[..n]), PutAll(t, ws[..n][..j + 1]), name);
          LastOfLonger(ws, name, j);
          assert ws[..n][..j + 1] == ws[..j + 1];
          assert SameEntry(PutAll(t, ws), PutAll(t, ws[..j + 1]), name);
        }
      }
    }
  }

  /** Every cycle after the first starts from a table at rest, whatever the run. */
  lemma {:induction false} StartsAtRest(t: Table, run: seq<Cycle>, k: nat)
    requires AtRest(t) && k <= |run|
    ensures AtRest(Start(t, run, k))
  {
    hide PutAll, PlayLog;
    if k > 0 {
      var t' := Start(t, run, k - 1);
      ResetRests(Seen(PutAll(t', run[k - 1].ws), run[k - 1].rules, |run[k - 1].rules|));
    }
  }

  /**
    In every run of cycles, a rise or fall rule fires only on an edge that a write of the
    same cycle produced, and that no later write has replaced; so no edge is acted on in
    two cycles.
   */
  lemma {:induction false} EdgesAreFresh(t: Table, run: seq<Cycle>, c: nat, k: nat)
    requires AtRest(t) && c < |run| && k < |run[c].rules|
    requires FiresAt(Start(t, run, c), run[c], k)
    requires run[c].rules[k].kind == ON_RISE || run[c].rules[k].kind == ON_FALL
    ensures
      var ws := Log(Start(t, run, c), run[c], k);
      var r := run[c].rules[k];
      exists j: nat :: LastTo(ws, r.input, j) && r.input in PutAll(Start(t, run, c), ws[..j + 1])
        && PutAll(Start(t, run, c), ws[..j + 1])[r.input].mark == if r.kind == ON_RISE then Rise else Fall
  {
    var s := Start(t, run, c);
    var r := run[c].rules[k];
    var ws := Log(s, run[c], k);
    StartsAtRest(t, run, c);
    hide PlayLog, Start;
    PutAllConcat(s, run[c].ws, PlayLog(PutAll(s, run[c].ws), run[c].rules[..k]));
    assert Seen(PutAll(s, run[c].ws), run[c].rules, k) == PutAll(s, ws);
    hide PutAll;
    Provenance(s, ws, r.input);
  }

  /**
    Exactly when a rule fires on an input that its cycle has not written: the input is
    still new, and the rule is for changes or for new inputs.
   */
  lemma {:induction false} FiresUnwritten(t: Table, run: seq<Cycle>, c: nat, k: nat)
    requires AtRest(t) && c < |run| && k < |run[c].rules|
    requires Untouched(Log(Start(t, run, c), run[c], k), run[c].rules[k].input)
    ensures
      var r := run[c].rules[k];
      FiresAt(Start(t, run, c), run[c], k) <==>
      && r.input in Start(t, run, c) && Start(t, run, c)[r.input].mark.New?
      && (r.kind == ON_CHANGE || r.kind == ON_NEW)
  {
    var s := Start(t, run, c);
    StartsAtRest(t, run, c);
    hide PlayLog, Start;
    PutAllConcat(s, run[c].ws, PlayLog(PutAll(s, run[c].ws), run[c].rules[..k]));
    assert Seen(PutAll(s, run[c].ws), run[c].rules, k) == PutAll(s, Log(s, run[c], k));
    hide PutAll;
    Provenance(s, Log(s, run[c], k), run[c].rules[k].input);
  }

  /** An input that is new when a run starts, and never assigned, fires a change rule in both of two cycles. */
  lemma NewFiresAgain(x: string, v: Value)
    ensures
      var rule := OutputRule(x, ON_CHANGE, Send);
      var run := [Cycle([], [rule]), Cycle([], [rule])];
      var t: Table := map[x := Entry(v, New)];
      FiresAt(Start(t, run, 0), run[0], 0) && FiresAt(Start(t, run, 1), run[1], 0)
  {
    var rule := OutputRule(x, ON_CHANGE, Send);
    var c := Cycle([], [rule]);
    var t: Table := map[x := Entry(v, New)];
    assert PutAll(t, []) == t && PlayLog(t, [rule][..0]) == [];
    assert Seen(t, [rule], 0) == t;
    PlayStep(t, [rule], 0);
    assert Seen(t, [rule], 1) == t;
    assert After(t, c) == t;
    assert Start(t, [c, c], 1) == After(Start(t, [c, c], 0), c);
  }

  // ----- Accounting for edges -----------------------------------------------------------

  /** What happens to one input over time: updating assignments, and ends of cycles. */
  datatype Act = Assign(v: Value) | EndOfCycle

  function Moved(e: Entry, a: Act): Entry {
    match a
    case Assign(v) => Entry(v, Edge(e, v, 0))
    case EndOfCycle => Settled(e)
  }

  function Final(e: Entry, acts: seq<Act>): Entry
    decreases |acts|
  {
    if acts == [] then e else Final(Moved(e, acts[0]), acts[1..])
  }

  /** The edges that assignments produce, in order. */
  function Edges(e: Entry, acts: seq<Act>): seq<Mark>
    decreases |acts|
  {
    if acts == [] then []
    else
      var m := Moved(e, acts[0]);
      (if acts[0].Assign? && (m.mark.Rise? || m.mark.Fall?) then [m.mark] else []) + Edges(m, acts[1..])
  }

  predicate Alternates(up: bool, edges: seq<Mark>)
    decreases |edges|
  {
    edges == [] || (edges[0] == (if up then Fall else Rise) && Alternates(!up, edges[1..]))
  }

  function Count(m: Mark, edges: seq<Mark>): nat {
    if edges == [] then 0 else (if edges[0] == m then 1 else 0) + Count(m, edges[1..])
  }

  function Level(b: bool): int {
    if b then 1 else 0
  }

  /**
    While an input stays boolean, its rises and falls strictly alternate, and their
    difference is exactly its net change.
   */
  lemma {:induction false} EdgesBalance(e: Entry, acts: seq<Act>)
    requires e.v.Bool? && !e.mark.Unknown?
    requires forall i :: 0 <= i < |acts| && acts[i].Assign? ==> acts[i].v.Bool?
    ensures Final(e, acts).v.Bool? && !Final(e, acts).mark.Unknown?
    ensures Alternates(e.v.b, Edges(e, acts))
    ensures Count(Rise, Edges(e, acts)) - Count(Fall, Edges(e, acts)) == Level(Final(e, acts).v.b) - Level(e.v.b)
    decreases |acts|
  {
    if acts != [] {
      var m := Moved(e, acts[0]);
      EdgesBalance(m, acts[1..]);
      var rest := Edges(m, acts[1..]);
      if acts[0].Assign? && (m.mark.Rise? || m.mark.Fall?) {
        assert ([m.mark] + rest)[1..] == rest;
      } else {
        assert [] + rest == rest;
      }
    }
  }

  /** The values an input goes through. */
  function Values(e: Entry, acts: seq<Act>): seq<Value>
    decreases |acts|
  {
    [e.v] + if acts == [] then [] else Values(Moved(e, acts[0]), acts[1..])
  }

  /** A numeric input that is never seen to fall never decreases, at any two moments of its run. */
  lemma {:induction false} NoFallNoDecrease(e: Entry, acts: seq<Act>, i: nat, j: nat)
    requires e.v.Float? && !e.mark.Unknown?
    requires forall i :: 0 <= i < |acts| && acts[i].Assign? ==> acts[i].v.Float?
    requires Fall !in Edges(e, acts)
    requires i <= j <= |acts|
    ensures |Values(e, acts)| == |acts| + 1
    ensures Values(e, acts)[i].Float? && Values(e, acts)[j].Float?
    ensures Values(e, acts)[i].x <= Values(e, acts)[j].x
    decreases |acts|
  {
    if acts != [] {
      var m := Moved(e, acts[0]);
      assert Fall !in Edges(m, acts[1..]);
      if i > 0 {
        NoFallNoDecrease(m, acts[1..], i - 1, j - 1);
      } else {
        NoFallNoDecrease(m, acts[1..], 0, if j > 0 then j - 1 else 0);
      }
    }
  }

  // ----- The same over runs of cycles ------------------------------------------------------

  /** Every write to x is an updating one of a typed value, with no mark forced. */
  predicate PlainTo(ws: seq<Write>, x: string) {
    forall i :: 0 <= i < |ws| && ws[i].name == x ==> Plain(ws[i])
  }

  predicate Plain(w: Write) {
    w.update && w.force.None? && w.v.Some? && !w.v.value.Undef?
  }

  /** What such writes do to x. */
  function ActsTo(ws: seq<Write>, x: string): seq<Act> {
    if ws == [] then []
    else
      var w := ws[|ws| - 1];
      ActsTo(ws[..|ws| - 1], x) + if w.name == x && w.v.Some? then [Assign(w.v.value)] else []
  }

  /** All the writes of the k-th cycle of a run, by its input rules and its output rules. */
  function WholeLog(t: Table, run: seq<Cycle>, k: nat): seq<Write>
    requires k < |run|
  {
    Log(Start(t, run, k), run[k], |run[k].rules|)
  }

  /** What happens to x in the first n cycles of a run. */
  function RunActs(t: Table, run: seq<Cycle>, x: string, n: nat): seq<Act>
    requires n <= |run|
  {
    if n == 0 then [] else RunActs(t, run, x, n - 1) + (ActsTo(WholeLog(t, run, n - 1), x) + [EndOfCycle])
  }

  lemma {:induction false} FinalConcat(e: Entry, a: seq<Act>, b: seq<Act>)
    ensures Final(e, a + b) == Final(Final(e, a), b)
    decreases |a|
  {
    if a == [] {
      assert a + b == b;
    } else {
      FinalConcat(Moved(e, a[0]), a[1..], b);
      assert (a + b)[1..] == a[1..] + b;
    }
  }

  lemma FinalOne(e: Entry, a: Act)
    ensures Final(e, []) == e && Final(e, [a]) == Moved(e, a)
  {
    assert [a][1..] == [];
  }

  lemma PutPlain(t: Table, w: Write)
    requires w.name in t && Plain(w)
    ensures w.name in Put(t, w) && Put(t, w)[w.name] == Moved(t[w.name], Assign(w.v.value))
  {
  }

  lemma {:induction false} PutAllActs(t: Table, ws: seq<Write>, x: string)
    requires x in t && PlainTo(ws, x)
    ensures x in PutAll(t, ws) && PutAll(t, ws)[x] == Final(t[x], ActsTo(ws, x))
  {
    hide Put, Plain, Moved;
    if ws == [] {
      FinalOne(t[x], EndOfCycle);
    } else {
      var before, w := ws[..|ws| - 1], ws[|ws| - 1];
      PutAllActs(t, before, x);
      if w.name == x {
        PutPlain(PutAll(t, before), w);
        PlainMeans(w);
        FinalConcat(t[x], ActsTo(before, x), [Assign(w.v.value)]);
        FinalOne(Final(t[x], ActsTo(before, x)), Assign(w.v.value));
      } else {
        PutElsewhere(PutAll(t, before), w, x);
        assert ActsTo(ws, x) == ActsTo(before, x);
      }
    }
  }

  lemma PlainMeans(w: Write)
    ensures Plain(w) ==> w.v.Some?
  {
  }

  /** What a run leaves in x is what the acts on x make of it. */
  lemma {:induction false} RunIsActs(t: Table, run: seq<Cycle>, x: string, n: nat)
    requires x in t && n <= |run| && forall k :: 0 <= k < n ==> PlainTo(WholeLog(t, run, k), x)
    ensures x in Start(t, run, n) && Start(t, run, n)[x] == Final(t[x], RunActs(t, run, x, n))
  {
    hide PlainTo, Final, ActsTo, PutAll, PlayLog, Settled;
    if n == 0 {
      FinalOne(t[x], EndOfCycle);
    } else {
      RunIsActs(t, run, x, n - 1);
      var s, c, e := Start(t, run, n - 1), run[n - 1], Final(t[x], RunActs(t, run, x, n - 1));
      var log := WholeLog(t, run, n - 1);
      PutAllConcat(s, c.ws, PlayLog(PutAll(s, c.ws), c.rules[..|c.rules|]));
      PutAllActs(s, log, x);
      assert Start(t, run, n) == Reset(PutAll(s, log));
      FinalConcat(t[x], RunActs(t, run, x, n - 1), ActsTo(log, x) + [EndOfCycle]);
      FinalConcat(e, ActsTo(log, x), [EndOfCycle]);
      FinalOne(Final(e, ActsTo(log, x)), EndOfCycle);
    }
  }

  lemma {:induction false} ActsAreWrites(ws: seq<Write>, x: string, i: nat)
    requires i < |ActsTo(ws, x)|
    ensures ActsTo(ws, x)[i].Assign?
    ensures exists j :: 0 <= j < |ws| && ws[j].name == x && ws[j].v == Some(ActsTo(ws, x)[i].v)
  {
    var n := |ws| - 1;
    if i < |ActsTo(ws[..n], x)| {
      ActsAreWrites(ws[..n], x, i);
      var j :| 0 <= j < n && ws[..n][j].name == x && ws[..n][j].v == Some(ActsTo(ws[..n], x)[i].v);
      assert ws[j].name == x;
    } else {
      assert ws[n].name == x;
    }
  }

  /** Every write to x, in the first n cycles, is a plain one of a value of the kind. */
  ghost predicate OnlyWrites(t: Table, run: seq<Cycle>, x: string, n: nat, kind: Value -> bool)
    requires n <= |run|
  {
    forall k :: 0 <= k < n ==>
      PlainTo(WholeLog(t, run, k), x) && KindTo(WholeLog(t, run, k), x, kind)
  }

  ghost predicate KindTo(ws: seq<Write>, x: string, kind: Value -> bool) {
    forall i :: 0 <= i < |ws| && ws[i].name == x && ws[i].v.Some? ==> kind(ws[i].v.value)
  }

  lemma {:induction false} RunActsAre(t: Table, run: seq<Cycle>, x: string, n: nat, kind: Value -> bool)
    requires n <= |run| && OnlyWrites(t, run, x, n, kind)
    ensures forall i :: 0 <= i < |RunActs(t, run, x, n)| && RunActs(t, run, x, n)[i].Assign? ==>
      kind(RunActs(t, run, x, n)[i].v)
  {
    hide WholeLog, ActsTo, PlainTo;
    if n > 0 {
      RunActsAre(t, run, x, n - 1, kind);
      var log := WholeLog(t, run, n - 1);
      forall i: nat | i < |ActsTo(log, x)|
        ensures ActsTo(log, x)[i].Assign? && kind(ActsTo(log, x)[i].v)
      {
        ActsAreWrites(log, x, i);
      }
    }
  }

  /**
    In every run of cycles that writes only booleans to a boolean input, its rises and falls
    strictly alternate, over all cycles, and their difference is the input's net change.
   */
  lemma EdgesBalanceInRun(t: Table, run: seq<Cycle>, x: string, n: nat)
    requires x in t && t[x].v.Bool? && !t[x].mark.Unknown? && n <= |run|
    requires OnlyWrites(t, run, x, n, (v: Value) => v.Bool?)
    ensures x in Start(t, run, n) && Start(t, run, n)[x].v.Bool?
    ensures
      var edges := Edges(t[x], RunActs(t, run, x, n));
      && Alternates(t[x].v.b, edges)
      && Count(Rise, edges) - Count(Fall, edges) == Level(Start(t, run, n)[x].v.b) - Level(t[x].v.b)
  {
    RunActsAre(t, run, x, n, (v: Value) => v.Bool?);
    hide RunActs, Start, WholeLog, Edges, Final, KindTo;
    RunIsActs(t, run, x, n);
    EdgesBalance(t[x], RunActs(t, run, x, n));
  }
}
