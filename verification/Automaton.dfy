/**
  The same state as the program updates it in place: the id table, the rule reload and the
  evaluation through the cache, each against its function in FormulaCache.
 */
module Automaton {
  import opened Wrappers
  import opened Formula
  import opened StackMachine
  import opened Compiler
  import opened FormulaCache
  import Inputs

  class Automaton {
    var nodes: map<nat, Node>
    var table: map<string, nat>
    var assoc: map<nat, nat>
    var lastId: nat
    var brk: nat
    var cache: map<string, Cached>
    var stuck: bool
    var spoilt: bool

    function View(): State
      reads this
    {
      State(nodes, table, assoc, lastId, brk, cache, stuck, spoilt)
    }

    constructor ()
      ensures View() == EMPTY
    {
      nodes, table, assoc, lastId, brk, cache := map[], map[], map[], 0, 0, map[];
      stuck, spoilt := false, false;
    }

    method AddToInputs(w: Inputs.Write)
      requires Tidy(View())
      modifies this
      ensures View() == Assigned(old(View()), w)
    {
      if w.name in table {
        var a := table[w.name];
        nodes := nodes[a := nodes[a].(entry := Inputs.Rewritten(nodes[a].entry, w))];
      } else if w.v.Some? {
        nodes := nodes[brk := Node(w.name, Inputs.Created(w), None)];
        table := table[w.name := brk];
        brk := brk + 1;
      }
    }

    /** Where the source would add an entry it asks for the lock that it holds, and stays there. */
    method GetId(name: string) returns (id: Option<nat>)
      requires Tidy(View()) && !stuck
      modifies this
      ensures (View(), id) == FormulaCache.GetId(old(View()), name)
    {
      if name !in table {
        stuck := true;
        return None;
      }
      var a := table[name];
      id := None;
      if nodes[a].id.None? {
        lastId := lastId + 1;
        nodes := nodes[a := nodes[a].(id := Some(lastId))];
        assoc := assoc[lastId := a];
        id := Some(lastId);
      }
    }

    method GetFloatById(id: nat) returns (d: Option<real>)
      requires Tidy(View())
      ensures d == ById(View(), id)
    {
      if id !in assoc {
        return None;
      }
      var v := nodes[assoc[id]].entry.v;
      if !v.Float? {
        return None;
      }
      return Some(v.x);
    }

    method CleanIdNameAssocs()
      modifies this`assoc
      ensures assoc == map[]
    {
      var left := assoc.Keys;
      while left != {}
        invariant assoc.Keys == left
        decreases left
      {
        var id :| id in left;
        assoc := assoc - {id};
        left := left - {id};
      }
      assert assoc == map[];
    }

    method ResetIds()
      requires forall n :: n in table ==> table[n] in nodes
      modifies this`nodes
      ensures nodes.Keys == old(nodes.Keys)
      ensures forall a :: a in nodes ==>
        nodes[a] == if a in table.Values then old(nodes)[a].(id := None) else old(nodes)[a]
    {
      ghost var was := nodes;
      var left := table.Keys;
      ghost var done: set<string> := {};
      while left != {}
        invariant left + done == table.Keys && nodes.Keys == was.Keys
        invariant forall a :: a in nodes ==>
          nodes[a] == if exists n :: n in done && table[n] == a then was[a].(id := None) else was[a]
        decreases left
      {
        var n :| n in left;
        var a := table[n];
        nodes := nodes[a := nodes[a].(id := None)];
        left := left - {n};
        done := done + {n};
      }
      assert done == table.Keys;
    }

    /** Lists a name: under its old entry if it still has one, else under a new one. */
    method Relist(name: string, left: map<string, nat>, ghost was: map<string, nat>) returns (left': map<string, nat>)
      requires forall n :: n in left <==> n in was && n !in table
      requires forall n :: n in left ==> left[n] == was[n]
      modifies this`nodes, this`table, this`brk
      ensures View() == ResyncedOne(old(View()), was, name)
      ensures forall n :: n in left' <==> n in was && n !in table
      ensures forall n :: n in left' ==> left'[n] == was[n]
    {
      left' := left;
      if name !in table {
        if name in left {
          table := table[name := left[name]];
          left' := left - {name};
        } else {
          nodes := nodes[brk := Node(name, Inputs.Entry(Inputs.Str("N/A"), Inputs.New), None)];
          table := table[name := brk];
          brk := brk + 1;
        }
      }
    }

    /** Rebuilds the table from the rules' names; what is left of the old table is returned. */
    method Retable(names: seq<string>) returns (left: map<string, nat>)
      requires Rebuilding(View().(table := map[]), table) && Accounted(View().(table := map[]), table)
      modifies this`nodes, this`table, this`brk
      ensures View() == Resynced(old(View()).(table := map[]), old(table), names)
      ensures Rebuilding(View(), old(table)) && Accounted(View(), old(table))
      ensures forall n :: n in left <==> n in old(table) && n !in table
      ensures forall n :: n in left ==> left[n] == old(table)[n]
    {
      hide Rebuilding, Accounted, Resynced, ResyncedOne;
      ghost var s := View().(table := map[]);
      ghost var was := table;
      left := table;
      table := map[];
      ResyncedNext(s, was, names, 0);
      for i := 0 to |names|
        invariant View() == Resynced(s, was, names[..i])
        invariant Rebuilding(View(), was) && Accounted(View(), was)
        invariant forall n :: n in left <==> n in was && n !in table
        invariant forall n :: n in left ==> left[n] == was[n]
      {
        ResyncedNext(s, was, names, i);
        ResyncedOneWell(View(), was, names[i]);
        ResyncedOneAccounted(View(), was, names[i]);
        left := Relist(names[i], left, was);
      }
      assert names[..|names|] == names;
    }

    /** Frees the entries of a table. */
    method Free(left: map<string, nat>)
      modifies this`nodes
      ensures forall a :: a in nodes <==> a in old(nodes) && forall n :: n in left ==> left[n] != a
      ensures forall a :: a in nodes ==> nodes[a] == old(nodes)[a]
    {
      ghost var all := nodes;
      ghost var gone: set<string> := {};
      var drop := left.Keys;
      while drop != {}
        invariant drop + gone == left.Keys
        invariant forall a :: a in nodes <==> a in all && forall n :: n in gone ==> left[n] != a
        invariant forall a :: a in nodes ==> nodes[a] == all[a]
        decreases drop
      {
        var n :| n in drop;
        nodes := nodes - {left[n]};
        drop := drop - {n};
        gone := gone + {n};
      }
      assert gone == left.Keys;
    }

    method Sync(names: seq<string>)
      requires Tidy(View())
      modifies this`nodes, this`table, this`brk
      ensures View() == Synced(old(View()), names)
    {
      hide Rebuilding, Accounted, Resynced, Tidy;
      SyncStarts(View());
      ghost var was := table;
      var left := Retable(names);
      ghost var v := View();
      Free(left);
      KeptExactly(v, was, nodes);
    }

    method Reload(names: Option<seq<string>>)
      requires Tidy(View())
      modifies this
      ensures View() == Reloaded(old(View()), names)
    {
      hide Tidy, Synced, Cleaned;
      if names.Some? {
        Sync(names.value);
      }
      ghost var s := View();
      SyncedTable(old(View()), names);
      cache := map[];
      CleanIdNameAssocs();
      ResetIds();
      CleanedIs(s, nodes);
    }

    /** Evaluates a formula from the cache, compiling it at its first use, if that is defined. */
    method CalcNumericByCache(lex: Lexer, m: Arithmetic, text: string) returns (d: Option<real>)
      requires !stuck && !spoilt
      modifies this
      ensures View() == Compiled(lex, old(View()), text)
      ensures stuck <==> Blocks(lex, old(View()), text)
      ensures spoilt <==> !stuck && Overruns(lex, old(View()), text)
      ensures Defined(lex, old(View()), text) ==> text in cache && d == Answer(m, View(), text)
    {
      hide Compile, Run;
      BuildKeepsMark(lex, View(), text);
      if text !in cache {
        var out := BuildStack(Resolver(ResolveShort), lex(text), View());
        var s := out.env;
        nodes, table, assoc, lastId, brk := s.nodes, s.table, s.assoc, s.lastId, s.brk;
        cache, stuck, spoilt := s.cache, s.stuck, s.spoilt;
        if stuck {
          return None;
        }
        if out.Failed? && out.why.Overrun? {
          spoilt := true;
          return None;
        }
        cache := cache[text := if out.Done? then Program(out.code) else Broken];
      }
      if cache[text].Broken? {
        return None;
      }
      var r := Calc(IdMachine(m, View()), cache[text].code);
      return Outcome1(r);
    }
  }

  /** Every entry in memory is one of the old table or of the new. */
  predicate Accounted(s: State, was: map<string, nat>) {
    && (forall a :: a in s.nodes ==>
          || (s.nodes[a].name in was && was[s.nodes[a].name] == a)
          || (s.nodes[a].name in s.table && s.table[s.nodes[a].name] == a))
    && (forall n :: n in s.table && n in was ==> s.table[n] == was[n])
  }

  lemma SyncStarts(s: State)
    requires Tidy(s)
    ensures Rebuilding(s.(table := map[]), s.table) && Accounted(s.(table := map[]), s.table)
  {
  }

  lemma ResyncedNext(s: State, was: map<string, nat>, names: seq<string>, i: nat)
    requires i <= |names|
    ensures Resynced(s, was, []) == s && names[..0] == []
    ensures i < |names| ==> Resynced(s, was, names[..i + 1]) == ResyncedOne(Resynced(s, was, names[..i]), was, names[i])
  {
    if i < |names| {
      assert names[..i + 1][..i] == names[..i];
    }
  }

  lemma ResyncedOneAccounted(s: State, was: map<string, nat>, name: string)
    requires Rebuilding(s, was) && Accounted(s, was)
    ensures Accounted(ResyncedOne(s, was, name), was)
  {
  }

  lemma KeptExactly(s: State, was: map<string, nat>, left: map<nat, Node>)
    requires Rebuilding(s, was) && Accounted(s, was)
    requires forall a :: a in left <==> a in s.nodes && forall n :: n in was && n !in s.table ==> was[n] != a
    requires forall a :: a in left ==> left[a] == s.nodes[a]
    ensures left ==
            map a | a in s.nodes && s.nodes[a].name in s.table && s.table[s.nodes[a].name] == a :: s.nodes[a]
  {
  }

  lemma CleanedIs(s: State, nodes: map<nat, Node>)
    requires nodes.Keys == s.nodes.Keys && forall a :: a in nodes ==> nodes[a] == s.nodes[a].(id := None)
    ensures Cleaned(s) == s.(cache := map[], assoc := map[], nodes := nodes)
  {
    assert nodes == map a | a in s.nodes :: s.nodes[a].(id := None);
  }

  /** After the sync every entry in memory is in the table. */
  lemma SyncedTable(s: State, names: Option<seq<string>>)
    requires Tidy(s)
    ensures
      var s1 := if names.Some? then Synced(s, names.value) else s;
      && (forall n :: n in s1.table ==> s1.table[n] in s1.nodes)
      && (forall a :: a in s1.nodes ==> a in s1.table.Values)
  {
    if names.Some? {
      ResyncedWell(s.(table := map[]), s.table, names.value);
    }
  }
}
