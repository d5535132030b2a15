/**
  The change marks of src/automator.c by the values they stand for: what an assignment marks,
  which rules the marks fire, and what the rules that fire do.
 */
module Marks {
  import opened Wrappers
  import opened Inputs

  // ----- What an assignment marks -----------------------------------------------------------

  /**
    The mark of a plain assignment to an input that has a known value: by comparison with
    that value, and by the new value alone when the type changes.
   */
  lemma KnownMarks(t: Table, w: Write)
    requires w.name in t && Plain(w) && !t[w.name].mark.Unknown?
    ensures w.name in Put(t, w) && Put(t, w)[w.name].v == w.v.value
    ensures
      var was, now, mark := t[w.name].v, w.v.value, Put(t, w)[w.name].mark;
      && (was.Float? && now.Float? ==>
            && (mark.Rise? <==> now.x > was.x) && (mark.Fall? <==> now.x < was.x)
            && (mark.Stay? <==> now.x == was.x))
      && (was.Bool? && now.Bool? ==>
            && (mark.Rise? <==> now.b && !was.b) && (mark.Fall? <==> was.b && !now.b)
            && (mark.Stay? <==> now.b == was.b))
      && (was.Str? && now.Str? ==> (mark.Change? <==> now.s != was.s) && (mark.Stay? <==> now.s == was.s))
  {
  }

  /** The mark of a plain assignment to an input whose value is not known. */
  lemma UnknownMarks(t: Table, w: Write)
    requires w.name in t && Plain(w) && t[w.name].mark.Unknown?
    ensures w.name in Put(t, w) && Put(t, w)[w.name].v == w.v.value
    ensures
      var was, now, mark := t[w.name].v, w.v.value, Put(t, w)[w.name].mark;
      && (was.Float? && now.Float? ==> mark == if now.x > 0.0 then Rise else Fall)
      && (was.Bool? && now.Bool? ==> mark == if now.b then Rise else Fall)
      && (was.Str? && now.Str? ==> mark == Change)
  {
  }

  /** The mark of a plain assignment that changes the type, whatever was known. */
  lemma TypeChangeMarks(t: Table, w: Write)
    requires w.name in t && Plain(w)
    ensures
      var was, now, mark := t[w.name].v, w.v.value, Put(t, w)[w.name].mark;
      && (!was.Float? && now.Float? ==> mark == if now.x == 0.0 then Fall else Rise)
      && (!was.Bool? && now.Bool? ==> mark == if now.b then Rise else Fall)
      && (!was.Str? && now.Str? ==> mark == TypeChange)
  {
  }

  /** The marks of every other assignment, what it stores, and what it leaves alone. */
  lemma OtherMarks(t: Table, w: Write)
    ensures forall n :: n != w.name ==> (n in Put(t, w) <==> n in t) && (n in t ==> Put(t, w)[n] == t[n])
    ensures w.name in Put(t, w) <==> w.name in t || w.v.Some?
    ensures w.name in Put(t, w) && w.v.Some? ==> Put(t, w)[w.name].v == w.v.value
    ensures w.name in t && w.v.None? ==> Put(t, w)[w.name].v == t[w.name].v
    ensures w.name in t && !w.update ==> Put(t, w)[w.name].mark == Unknown
    ensures w.name in t && w.update && w.force.Some? ==> Put(t, w)[w.name].mark == w.force.value
    ensures w.name !in t && w.v.Some? ==>
      Put(t, w)[w.name].mark ==
      if w.force.Some? then w.force.value else if w.update then New else Unknown
    ensures w.name in t && w.update && w.force.None? && w.v.Some? && w.v.value.Undef? && !t[w.name].v.Undef? ==>
      Put(t, w)[w.name].mark == Unknown
    ensures w.name in t && w.update && w.force.None? && w.v.Some? && w.v.value.Undef? && t[w.name].v.Undef? ==>
      Put(t, w)[w.name].mark ==
      if t[w.name].mark == Unknown then Fall
      else if w.junk == 0 then Stay else if w.junk < 0 then Rise else Fall
    ensures w.name in t && w.v.None? ==> Put(t, w) == Put(t, w.(v := Some(t[w.name].v)))
  {
  }

  /** The end of a cycle: values stay, UNKNOWN and NEW stay, and every other mark becomes STAY. */
  lemma ResetMarks(t: Table)
    ensures Reset(t).Keys == t.Keys
    ensures forall n :: n in t ==>
      && Reset(t)[n].v == t[n].v
      && Reset(t)[n].mark == if t[n].mark == Unknown || t[n].mark == New then t[n].mark else Stay
  {
  }

  /** A numeric input that is never seen to rise never increases, at any two moments of its run. */
  lemma {:induction false} NoRiseNoIncrease(e: Entry, acts: seq<Act>, i: nat, j: nat)
    requires e.v.Float? && !e.mark.Unknown?
    requires forall i :: 0 <= i < |acts| && acts[i].Assign? ==> acts[i].v.Float?
    requires Rise !in Edges(e, acts)
    requires i <= j <= |acts|
    ensures |Values(e, acts)| == |acts| + 1
    ensures Values(e, acts)[i].Float? && Values(e, acts)[j].Float?
    ensures Values(e, acts)[i].x >= Values(e, acts)[j].x
    decreases |acts|
  {
    hide Moved;
    if acts != [] {
      var m := Moved(e, acts[0]);
      NumericStep(e, acts[0]);
      assert Edges(e, acts) == (if acts[0].Assign? && (m.mark.Rise? || m.mark.Fall?) then [m.mark] else []) +
                               Edges(m, acts[1..]);
      assert Rise !in Edges(m, acts[1..]);
      if i > 0 {
        NoRiseNoIncrease(m, acts[1..], i - 1, j - 1);
      } else {
        NoRiseNoIncrease(m, acts[1..], 0, if j > 0 then j - 1 else 0);
      }
    }
  }

  lemma NumericStep(e: Entry, a: Act)
    requires e.v.Float? && !e.mark.Unknown? && (a.Assign? ==> a.v.Float?)
    ensures
      var m := Moved(e, a);
      m.v.Float? && !m.mark.Unknown? && (a.EndOfCycle? || !m.mark.Rise? ==> m.v.x <= e.v.x)
  {
  }

  // ----- Which rules fire ------------------------------------------------------------------

  /**
    Over every run: a rule on an input that was written in its cycle fires exactly when the
    last write before the rule left the mark that the rule's kind asks for.
   */
  lemma {:induction false} FiresWritten(t: Table, run: seq<Cycle>, c: nat, k: nat, j: nat)
    requires c < |run| && k < |run[c].rules|
    requires LastTo(Log(Start(t, run, c), run[c], k), run[c].rules[k].input, j)
    ensures
      var s, r := Start(t, run, c), run[c].rules[k];
      var left := PutAll(s, Log(s, run[c], k)[..j + 1]);
      FiresAt(s, run[c], k) <==>
      && r.input in left
      && match r.kind
         case 1 => left[r.input].mark == Rise
         case 2 => left[r.input].mark == Fall
         case 3 =>
           var mark := left[r.input].mark;
           mark == Change || mark == Rise || mark == Fall || mark == New
         case 4 => left[r.input].mark == New
         case _ => false
  {
    var s := Start(t, run, c);
    var ws := Log(s, run[c], k);
    hide PlayLog, Start;
    PutAllConcat(s, run[c].ws, PlayLog(PutAll(s, run[c].ws), run[c].rules[..k]));
    assert Seen(PutAll(s, run[c].ws), run[c].rules, k) == PutAll(s, ws);
    hide PutAll;
    AsLastLeft(s, ws, run[c].rules[k].input, j);
  }

  /** What the last write to a name leaves there stays. */
  lemma {:induction false} AsLastLeft(t: Table, ws: seq<Write>, name: string, j: nat)
    requires LastTo(ws, name, j)
    ensures SameEntry(PutAll(t, ws), PutAll(t, ws[..j + 1]), name)
    decreases |ws|
  {
    hide Put;
    var n := |ws| - 1;
    if j == n {
      assert ws[..j + 1] == ws;
    } else {
      AsLastLeft(t, ws[..n], name, j);
      assert ws[..n][..j + 1] == ws[..j + 1];
      PutElsewhere(PutAll(t, ws[..n]), ws[n], name);
    }
  }

  /**
    So, end to end: on a known numeric input whose last write before the rule is a plain
    number, rise rules fire exactly on an increase, fall rules exactly on a decrease, change
    rules exactly on either, and rules for new inputs never.
   */
  lemma {:induction false} NumericRules(t: Table, run: seq<Cycle>, c: nat, k: nat, j: nat)
    requires c < |run| && k < |run[c].rules|
    requires LastTo(Log(Start(t, run, c), run[c], k), run[c].rules[k].input, j)
    requires
      var s, ws := Start(t, run, c), Log(Start(t, run, c), run[c], k);
      var before, x := PutAll(s, ws[..j]), run[c].rules[k].input;
      && x in before && before[x].v.Float? && !before[x].mark.Unknown?
      && Plain(ws[j]) && ws[j].v.value.Float?
    ensures
      var s, ws := Start(t, run, c), Log(Start(t, run, c), run[c], k);
      var was, now := PutAll(s, ws[..j])[run[c].rules[k].input].v.x, ws[j].v.value.x;
      FiresAt(s, run[c], k) <==>
      match run[c].rules[k].kind case 1 => now > was case 2 => now < was case 3 => now != was case _ => false
  {
    var s, ws := Start(t, run, c), Log(Start(t, run, c), run[c], k);
    hide PlayLog, Start, Put, FiresAt, Log;
    FiresWritten(t, run, c, k, j);
    assert ws[..j + 1][..j] == ws[..j] && ws[..j + 1][j] == ws[j];
    assert PutAll(s, ws[..j + 1]) == Put(PutAll(s, ws[..j]), ws[j]);
    KnownMarks(PutAll(s, ws[..j]), ws[j]);
  }

  // ----- What rules do -----------------------------------------------------------------------

  /**
    What one rule leaves: nothing changes unless it fires and assigns or clears; an
    assignment is made unforced, and a cleared input keeps its value and becomes UNKNOWN.
   */
  lemma RuleDoes(t: Table, rules: seq<OutputRule>, k: nat)
    requires k < |rules|
    ensures
      var s, s1, a := Seen(t, rules, k), Seen(t, rules, k + 1), rules[k].action;
      && (!Fires(s, rules[k]) || a.Send? || a.Timer? ==> s1 == s)
      && (Fires(s, rules[k]) && a.SetInput? ==>
            if a.w(s).Some? then s1 == Put(s, a.w(s).value.(force := None)) else s1 == s)
      && (Fires(s, rules[k]) && a.ClearState? ==>
            && s1.Keys == s.Keys
            && (forall n :: n in s && n != a.name ==> s1[n] == s[n])
            && (a.name in s ==> s1[a.name] == Entry(s[a.name].v, Unknown)))
  {
    PlayStep(t, rules, k);
    hide Seen, Fires;
    var a := rules[k].action;
    if a.ClearState? {
      OtherMarks(Seen(t, rules, k), Write(a.name, None, true, Some(Unknown), a.junk));
    }
  }

  /** Which rules are kept: all but those of another kind than 1 to 4 whose input exists by then. */
  lemma RulesKept(t: Table, rules: seq<OutputRule>, k: nat)
    requires k < |rules|
    ensures Kept(t, []) == []
    ensures
      var r, s := rules[k], Seen(t, rules, k);
      Kept(t, rules[..k + 1]) ==
      Kept(t, rules[..k]) + if r.input in s && r.kind !in {1, 2, 3, 4} then [] else [r]
  {
    PlayStep(t, rules, k);
    hide Kept, Seen;
    PlayStarts(t, []);
  }
}
