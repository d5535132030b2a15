/**
  Variable ids and the formula cache: the ids that src/automator.c gives to inputs, the
  association table that a running formula looks them up in, rule reloads, and the cache of
  src/mea_eval.c that keeps compiled formulas by their text.
 */
module FormulaCache {
  import opened Wrappers
  import opened Formula
  import opened StackMachine
  import opened Compiler
  import opened FormulaLaws
  import opened Precedence
  import opened Overrun
  import Inputs

  /** A table entry in memory; `id` is None for the source's -1. */
  datatype Node = Node(name: string, entry: Inputs.Entry, id: Option<nat>)

  /** A cached formula: its instructions, or the mark of a failed compilation. */
  datatype Cached = Program(code: seq<Instr<real, int>>) | Broken

  /**
    The memory the formulas depend on: table entries by address, the input table and the id
    associations as pointers to them, the last id given, and the cache by formula text.
    `stuck` says that a thread waits for the lock of the input table while it holds it, and
    `spoilt` that the compiler has written outside its arrays, so that nothing else is known.
   */
  datatype State = State(
    nodes: map<nat, Node>,
    table: map<string, nat>,
    assoc: map<nat, nat>,
    lastId: nat,
    brk: nat,
    cache: map<string, Cached>,
    stuck: bool,
    spoilt: bool)

  // ----- Ids ----------------------------------------------------------------------------

  function Created(s: State, name: string, entry: Inputs.Entry): State {
    s.(nodes := s.nodes[s.brk := Node(name, entry, None)], table := s.table[name := s.brk], brk := s.brk + 1)
  }

  /**
    An id for a variable.  A name that already has one is refused.  For a name without an
    entry the source asks for the table's lock a second time and never returns.
   */
  function GetId(s: State, name: string): (State, Option<nat>) {
    if s.stuck || name !in s.table then (s.(stuck := true), None)
    else
      var a := s.table[name];
      if a in s.nodes && s.nodes[a].id.None? then
        var id := s.lastId + 1;
        (s.(nodes := s.nodes[a := s.nodes[a].(id := Some(id))], assoc := s.assoc[id := a], lastId := id), Some(id))
      else (s, None)
  }

  /** The id as the compiler keeps it, in 16 bits with a sign. */
  function Short(id: nat): int {
    (id + 0x8000) % 0x1_0000 - 0x8000
  }

  /** The id as the lookup takes it, widened to 32 bits without a sign. */
  function Widened(id: int): nat {
    id % 0x1_0000_0000
  }

  /** An id survives the 16 bits exactly when it fits in them with its sign. */
  lemma ShortWidened(id: nat)
    requires id < 0x1_0000_0000
    ensures Widened(Short(id)) == id <==> id <= 0x7FFF || id >= 0xFFFF_8000
  {
    var low := (id + 0x8000) % 0x1_0000;
    assert id + 0x8000 == 0x1_0000 * ((id + 0x8000) / 0x1_0000) + low;
  }

  function ResolveShort(s: State, name: string): (State, Option<int>) {
    var (s1, id) := GetId(s, name);
    (s1, if id.None? then None else Some(Short(id.value)))
  }

  function ById(s: State, id: nat): Option<real> {
    if id in s.assoc && s.assoc[id] in s.nodes && s.nodes[s.assoc[id]].entry.v.Float?
    then Some(s.nodes[s.assoc[id]].entry.v.x) else None
  }

  function ByName(s: State, name: string): Option<real> {
    if name in s.table && s.table[name] in s.nodes && s.nodes[s.table[name]].entry.v.Float?
    then Some(s.nodes[s.table[name]].entry.v.x) else None
  }

  datatype Arithmetic = Arithmetic(apply: (Op, real, real) -> Option<real>, trunc: real -> real)

  function IdMachine(m: Arithmetic, s: State): Machine<real, int> {
    Machine(m.apply, m.trunc, (id: int) => ById(s, Widened(id)))
  }

  function NameMachine(m: Arithmetic, s: State): Machine<real, string> {
    Machine(m.apply, m.trunc, (x: string) => ByName(s, x))
  }

  // ----- The cache ------------------------------------------------------------------------

  /** How the lexer reads a formula's text. */
  type Lexer = string -> seq<Token<real>>

  function Build(lex: Lexer, s: State, text: string): Outcome<real, State> {
    Compile(Resolver(ResolveShort), lex(text), s)
  }

  /** The evaluation never returns: compiling the formula waits for the lock that it holds. */
  predicate Blocks(lex: Lexer, s: State, text: string) {
    text !in s.cache && Build(lex, s, text).env.stuck
  }

  /** Compiling the formula overruns one of the compiler's fixed arrays. */
  predicate Overruns(lex: Lexer, s: State, text: string) {
    text !in s.cache && OverrunBy(Build(lex, s, text))
  }

  /** The evaluation returns, and overruns nothing. */
  predicate Defined(lex: Lexer, s: State, text: string) {
    !Blocks(lex, s, text) && !Overruns(lex, s, text)
  }

  function Remembered(s: State, text: string, c: Cached): State {
    s.(cache := s.cache[text := c])
  }

  function Compiled(lex: Lexer, s: State, text: string): State {
    if text in s.cache then s
    else
      var out := Build(lex, s, text);
      if out.env.stuck then out.env
      else if OverrunBy(out) then out.env.(spoilt := true)
      else Remembered(out.env, text, if out.Done? then Program(out.code) else Broken)
  }

  function Answer(m: Arithmetic, s: State, text: string): Option<real>
    requires text in s.cache
  {
    match s.cache[text]
    case Broken => None
    case Program(code) =>
      match Run(IdMachine(m, s), code)
      case Value(v) => Some(v)
      case Failure(_) => None
  }

  // ----- Assignments and reloads --------------------------------------------------------

  function Assigned(s: State, w: Inputs.Write): State {
    if w.name in s.table then
      var a := s.table[w.name];
      if a in s.nodes then s.(nodes := s.nodes[a := s.nodes[a].(entry := Inputs.Rewritten(s.nodes[a].entry, w))])
      else s
    else if w.v.Some? then Created(s, w.name, Inputs.Created(w))
    else s
  }

  /** Entries still named are kept, entries newly named are created. */
  function Resynced(s: State, was: map<string, nat>, names: seq<string>): State {
    if names == [] then s
    else
      ResyncedOne(Resynced(s, was, names[..|names| - 1]), was, names[|names| - 1])
  }

  function ResyncedOne(s: State, was: map<string, nat>, name: string): State {
    if name in s.table then s
    else if name in was then s.(table := s.table[name := was[name]])
    else Created(s, name, Inputs.Entry(Inputs.Str("N/A"), Inputs.New))
  }

  /** Entries named no more are freed; the associations still point at them. */
  function Synced(s: State, names: seq<string>): State {
    var s1 := Resynced(s.(table := map[]), s.table, names);
    s1.(nodes :=
      map a | a in s1.nodes && s1.nodes[a].name in s1.table && s1.table[s1.nodes[a].name] == a :: s1.nodes[a])
  }

  function Cleaned(s: State): State {
    s.(cache := map[], assoc := map[], nodes := map a | a in s.nodes :: s.nodes[a].(id := None))
  }

  function Reloaded(s: State, names: Option<seq<string>>): State {
    Cleaned(if names.Some? then Synced(s, names.value) else s)
  }

  // ----- Coherence ------------------------------------------------------------------------

  predicate HasId(s: State, name: string) {
    name in s.table && s.table[name] in s.nodes && s.nodes[s.table[name]].id.Some?
  }

  function IdOf(s: State, name: string): int {
    if HasId(s, name) then Short(s.nodes[s.table[name]].id.value) else 0
  }

  function Namer(s: State): string -> int {
    x => IdOf(s, x)
  }

  function Vars<N>(c: Chain<N, string>): seq<string>
    decreases c, 1
  {
    OperandVars(c.operand) + if c.Last? then [] else Vars(c.rest)
  }

  function OperandVars<N>(o: Operand<N, string>): seq<string>
    decreases o, 0
  {
    match o
    case Number(_) => []
    case Variable(x) => [x]
    case Group(c) => Vars(c)
    case Call(c) => Vars(c)
  }

  predicate AllHaveIds(s: State, names: seq<string>) {
    forall i :: 0 <= i < |names| ==> HasId(s, names[i])
  }

  /** The instructions are the formula's, each variable by the id it now has. */
  ghost predicate Stands(lex: Lexer, s: State, text: string, code: seq<Instr<real, int>>) {
    exists c: Chain<real, string> :: Text(c) == lex(text) && StandsFor(s, c, code)
  }

  predicate StandsFor(s: State, c: Chain<real, string>, code: seq<Instr<real, int>>) {
    AllHaveIds(s, Vars(c)) && Nesting(c) <= MAX_LEVEL && code == Emit(Rename(Namer(s), c), [])
  }

  /** Table and associations agree, and nothing points to freed memory. */
  predicate Tidy(s: State) {
    && (forall n :: n in s.table ==> s.table[n] in s.nodes && s.nodes[s.table[n]].name == n)
    && (forall a :: a in s.nodes ==> a < s.brk && s.nodes[a].name in s.table && s.table[s.nodes[a].name] == a)
    && (forall i :: i in s.assoc ==> s.assoc[i] in s.nodes && s.nodes[s.assoc[i]].id == Some(i))
    && (forall a :: a in s.nodes && s.nodes[a].id.Some? ==>
          s.nodes[a].id.value in s.assoc && s.assoc[s.nodes[a].id.value] == a && 1 <= s.nodes[a].id.value <= s.lastId)
  }

  ghost predicate Coherent(lex: Lexer, s: State) {
    && Tidy(s) && !s.stuck && !s.spoilt
    && forall t :: t in s.cache && s.cache[t].Program? ==> Stands(lex, s, t, s.cache[t].code)
  }

  /** Ids given stay given. */
  ghost predicate Extends(s: State, s1: State) {
    && s1.cache == s.cache && s1.spoilt == s.spoilt && s.lastId <= s1.lastId
    && forall n :: HasId(s, n) ==> HasId(s1, n) && IdOf(s1, n) == IdOf(s, n)
  }

  lemma ExtendsOn(s: State, s1: State, s2: State)
    ensures Extends(s, s)
    ensures Extends(s, s1) && Extends(s1, s2) ==> Extends(s, s2)
  {
  }

  lemma CreatedTidy(s: State, name: string, entry: Inputs.Entry)
    requires Tidy(s) && name !in s.table
    ensures Tidy(Created(s, name, entry)) && Extends(s, Created(s, name, entry))
    ensures forall n :: HasId(Created(s, name, entry), n) <==> HasId(s, n)
  {
  }

  /** The name has an entry, and no id yet. */
  predicate Free(s: State, name: string) {
    name in s.table && !HasId(s, name)
  }

  lemma NumberedTidy(s: State, name: string)
    requires Tidy(s) && !s.stuck && Free(s, name)
    ensures
      var (s1, id) := GetId(s, name);
      && Tidy(s1) && Extends(s, s1) && s1.table == s.table && !s1.stuck
      && id == Some(s1.lastId) && s1.lastId == s.lastId + 1
      && HasId(s1, name) && IdOf(s1, name) == Short(id.value)
      && forall n :: HasId(s1, n) <==> HasId(s, n) || n == name
  {
    hide Tidy, Extends, Short;
    TableApart(s);
    NumberedStaysTidy(s, name);
    NumberedExtends(s, name);
  }

  lemma NumberedStaysTidy(s: State, name: string)
    requires Tidy(s) && !s.stuck && Free(s, name)
    ensures Tidy(GetId(s, name).0)
  {
    hide Short;
  }

  lemma NumberedExtends(s: State, name: string)
    requires Tidy(s) && !s.stuck && Free(s, name)
    ensures Extends(s, GetId(s, name).0)
  {
    hide Tidy, Short;
    TableApart(s);
  }

  lemma StuckTidy(s: State)
    requires Tidy(s)
    ensures Tidy(s.(stuck := true)) && Extends(s, s.(stuck := true)) && Extends(s, s)
  {
  }

  /**
    Asking for an id succeeds exactly on a name that has an entry and no id; it fails, and
    changes nothing, exactly on one that has an id, and blocks exactly on one without entry.
   */
  lemma GetIdExactly(s: State, name: string)
    requires Tidy(s)
    ensures
      var (s1, id) := GetId(s, name);
      && Tidy(s1) && Extends(s, s1) && s1.table == s.table
      && (id.Some? <==> !s.stuck && Free(s, name))
      && (id.None? ==> s1 == s.(stuck := s.stuck || name !in s.table))
      && (id.Some? ==>
            && id.value == s.lastId + 1 == s1.lastId && !s1.stuck
            && HasId(s1, name) && IdOf(s1, name) == Short(id.value)
            && forall n :: HasId(s1, n) <==> HasId(s, n) || n == name)
  {
    StuckTidy(s);
    hide Tidy, Extends, IdOf;
    if !s.stuck && Free(s, name) {
      NumberedTidy(s, name);
    }
  }

  // ----- Which formulas compile -----------------------------------------------------

  /** The names have entries and no ids, and none is repeated. */
  predicate AllFree(s: State, names: seq<string>) {
    && (forall i :: 0 <= i < |names| ==> Free(s, names[i]))
    && (forall i, j :: 0 <= i < j < |names| ==> names[i] != names[j])
  }

  lemma AllFreeConcat(s: State, a: seq<string>, s1: State, b: seq<string>)
    requires s1.table == s.table && forall n :: HasId(s1, n) <==> HasId(s, n) || n in a
    ensures AllFree(s, a + b) <==> AllFree(s, a) && AllFree(s1, b)
  {
    hide HasId;
    var ab := a + b;
    assert forall i :: 0 <= i < |a| ==> ab[i] == a[i];
    assert forall i :: 0 <= i < |b| ==> ab[|a| + i] == b[i];
    if AllFree(s, ab) {
      forall i | 0 <= i < |b|
        ensures Free(s1, b[i])
      {
        assert Free(s, ab[|a| + i]);
        assert forall k :: 0 <= k < |a| ==> ab[k] != ab[|a| + i];
      }
    }
    if AllFree(s, a) && AllFree(s1, b) {
      forall i | 0 <= i < |ab|
        ensures Free(s, ab[i])
      {
        assert i >= |a| ==> Free(s1, b[i - |a|]);
      }
      forall i, j | 0 <= i < j < |ab|
        ensures ab[i] != ab[j]
      {
        assert j >= |a| ==> Free(s1, b[j - |a|]);
        assert i >= |a| ==> b[i - |a|] == ab[i] && b[j - |a|] == ab[j];
      }
    }
  }

  lemma AllHaveIdsConcat(s: State, a: seq<string>, s1: State, b: seq<string>)
    requires AllHaveIds(s, a) && Extends(s, s1) && AllHaveIds(s1, b)
    ensures AllHaveIds(s1, a + b)
  {
  }

  /** Renaming depends only on what happens to the chain's own variables. */
  lemma {:induction false} RenameAgrees<N, W>(f: string -> W, g: string -> W, c: Chain<N, string>)
    requires forall x :: x in Vars(c) ==> f(x) == g(x)
    ensures Rename(f, c) == Rename(g, c)
    decreases c, 1
  {
    RenameOperandAgrees(f, g, c.operand);
    if c.Link? {
      RenameAgrees(f, g, c.rest);
    }
  }

  lemma {:induction false} RenameOperandAgrees<N, W>(f: string -> W, g: string -> W, o: Operand<N, string>)
    requires forall x :: x in OperandVars(o) ==> f(x) == g(x)
    ensures RenameOperand(f, o) == RenameOperand(g, o)
    decreases o, 0
  {
    match o
    case Number(_) =>
    case Variable(x) => assert x in OperandVars(o);
    case Group(c) => RenameAgrees(f, g, c);
    case Call(c) => RenameAgrees(f, g, c);
  }

  lemma RenamesOn<N>(s: State, s1: State, c: Chain<N, string>)
    requires AllHaveIds(s, Vars(c)) && Extends(s, s1)
    ensures Rename(Namer(s), c) == Rename(Namer(s1), c) && AllHaveIds(s1, Vars(c))
  {
    RenameAgrees(Namer(s), Namer(s1), c);
  }

  lemma RenamesOperandOn<N>(s: State, s1: State, o: Operand<N, string>)
    requires AllHaveIds(s, OperandVars(o)) && Extends(s, s1)
    ensures RenameOperand(Namer(s), o) == RenameOperand(Namer(s1), o) && AllHaveIds(s1, OperandVars(o))
  {
    RenameOperandAgrees(Namer(s), Namer(s1), o);
  }

  /**
    A formula's variables are all given ids exactly when each has an entry, none has an id
    yet and none occurs twice; and then the formula is compiled under the ids its variables have.
   */
  lemma {:induction false} BindExactly<N>(c: Chain<N, string>, s: State)
    requires Tidy(s) && !s.stuck
    ensures
      var Bound(b, s1) := Bind(Resolver(ResolveShort), c, s);
      && Tidy(s1) && Extends(s, s1) && s1.table == s.table
      && (b.Some? <==> AllFree(s, Vars(c)))
      && (b.Some? ==>
            && !s1.stuck && AllHaveIds(s1, Vars(c)) && b.value == Rename(Namer(s1), c)
            && forall n :: HasId(s1, n) <==> HasId(s, n) || n in Vars(c))
    decreases c, 1
  {
    hide Tidy, AllFree, AllHaveIds, HasId, Extends, Namer, Free;
    BindOperandExactly(c.operand, s);
    var BoundOperand(o, s1) := BindOperand(Resolver(ResolveShort), c.operand, s);
    if c.Last? {
      assert Vars(c) == OperandVars(c.operand);
    } else if o.Some? {
      BindExactly(c.rest, s1);
      var Bound(r, s2) := Bind(Resolver(ResolveShort), c.rest, s1);
      ExtendsOn(s, s1, s2);
      AllFreeConcat(s, OperandVars(c.operand), s1, Vars(c.rest));
      if r.Some? {
        AllHaveIdsConcat(s1, OperandVars(c.operand), s2, Vars(c.rest));
        RenamesOperandOn(s1, s2, c.operand);
      }
    } else {
      NotAllFree(s, OperandVars(c.operand), Vars(c.rest));
    }
  }

  lemma NotAllFree(s: State, a: seq<string>, b: seq<string>)
    requires !AllFree(s, a)
    ensures !AllFree(s, a + b)
  {
    if AllFree(s, a + b) {
      assert forall i :: 0 <= i < |a| ==> (a + b)[i] == a[i];
      assert AllFree(s, a);
    }
  }

  lemma AllFreeOne(s: State, x: string)
    ensures AllFree(s, [x]) <==> Free(s, x)
    ensures AllHaveIds(s, [x]) <==> HasId(s, x)
    ensures AllFree(s, []) && AllHaveIds(s, [])
  {
    assert [x][0] == x;
  }

  lemma BindVariableExactly<N>(x: string, s: State)
    requires Tidy(s) && !s.stuck
    ensures
      var BoundOperand(b, s1) := BindOperand<N, State>(Resolver(ResolveShort), Variable(x), s);
      && Tidy(s1) && Extends(s, s1) && s1.table == s.table
      && (b.Some? <==> AllFree(s, [x]))
      && (b.Some? ==>
            && !s1.stuck && AllHaveIds(s1, [x]) && b.value == Variable(Namer(s1)(x))
            && forall n :: HasId(s1, n) <==> HasId(s, n) || n == x)
  {
    hide Tidy, AllFree, AllHaveIds, HasId, Extends, GetId, IdOf, Free;
    GetIdExactly(s, x);
    AllFreeOne(s, x);
    AllFreeOne(GetId(s, x).0, x);
  }

  lemma {:induction false} BindOperandExactly<N>(o: Operand<N, string>, s: State)
    requires Tidy(s) && !s.stuck
    ensures
      var BoundOperand(b, s1) := BindOperand(Resolver(ResolveShort), o, s);
      && Tidy(s1) && Extends(s, s1) && s1.table == s.table
      && (b.Some? <==> AllFree(s, OperandVars(o)))
      && (b.Some? ==>
            && !s1.stuck && AllHaveIds(s1, OperandVars(o)) && b.value == RenameOperand(Namer(s1), o)
            && forall n :: HasId(s1, n) <==> HasId(s, n) || n in OperandVars(o))
    decreases o, 0
  {
    hide Tidy, AllFree, AllHaveIds, HasId, Extends, GetId, Free;
    match o
    case Number(_) =>
      AllFreeOne(s, "");
      ExtendsOn(s, s, s);
    case Variable(x) => BindVariableExactly<N>(x, s);
    case Group(c) => BindExactly(c, s);
    case Call(c) => BindExactly(c, s);
  }

  // ----- Compiling into the cache ----------------------------------------------------

  lemma {:induction false} RenameKeepsShape<N, W>(f: string -> W, c: Chain<N, string>, ops: seq<OpCode>, cap: nat)
    ensures Nesting(Rename(f, c)) == Nesting(c) && Size(Rename(f, c)) == Size(c)
    ensures OperatorsFit(Rename(f, c), ops, cap) == OperatorsFit(c, ops, cap)
    decreases c, 1
  {
    RenameOperandKeepsShape(f, c.operand, cap);
    if c.Link? {
      RenameKeepsShape(f, c.rest, Pending(OperandPending(c.operand, ops), Binary(c.op)), cap);
    }
  }

  lemma {:induction false} RenameOperandKeepsShape<N, W>(f: string -> W, o: Operand<N, string>, cap: nat)
    ensures OperandNesting(RenameOperand(f, o)) == OperandNesting(o)
    ensures OperandSize(RenameOperand(f, o)) == OperandSize(o)
    ensures OperandOperatorsFit(RenameOperand(f, o), cap) == OperandOperatorsFit(o, cap)
    ensures RenameOperand(f, o).Call? == o.Call?
    decreases o, 0
  {
    match o
    case Number(_) =>
    case Variable(_) =>
    case Group(c) => RenameKeepsShape(f, c, [], cap);
    case Call(c) => RenameKeepsShape(f, c, [], cap);
  }

  /** The chain is within the compiler's fixed sizes. */
  predicate WithinLimits<N>(c: Chain<N, string>) {
    Nesting(c) <= MAX_LEVEL && OperatorsFit(c, [], MAX_OPERATORS) && Size(c) <= MAX_CODE
  }

  lemma BoundWithin<N>(c: Chain<N, string>, f: string -> int)
    ensures Within(Rename(f, c), 0, 0, []) <==> WithinLimits(c)
  {
    RenameKeepsShape(f, c, [], MAX_OPERATORS);
  }

  /** The formula of this text that would be compiled now. */
  ghost predicate Compilable(lex: Lexer, s: State, text: string) {
    exists c: Chain<real, string> :: Text(c) == lex(text) && AllFree(s, Vars(c)) && WithinLimits(c)
  }

  lemma BuildSucceeds(lex: Lexer, s: State, text: string, c: Chain<real, string>)
    requires Tidy(s) && !s.stuck && Text(c) == lex(text) && AllFree(s, Vars(c)) && WithinLimits(c)
    ensures Build(lex, s, text).Done?
  {
    hide *;
    BindExactly(c, s);
    BoundWithin(c, Namer(Bind(Resolver(ResolveShort), c, s).env));
    CompileExactly(Resolver(ResolveShort), lex(text), s);
    BuildIs(lex, s, text);
  }

  lemma BuildIs(lex: Lexer, s: State, text: string)
    ensures Build(lex, s, text) == Compile(Resolver(ResolveShort), lex(text), s)
  {
  }

  /** A formula that compiled stands for its instructions, in the state that compiling leaves. */
  lemma BuildStands(lex: Lexer, s: State, text: string)
    requires Tidy(s) && !s.stuck && Build(lex, s, text).Done?
    ensures !Build(lex, s, text).env.stuck
    ensures Stands(lex, Build(lex, s, text).env, text, Build(lex, s, text).code)
    ensures Compilable(lex, s, text)
  {
    hide *;
    BuildIs(lex, s, text);
    var c := Accepted(Resolver(ResolveShort), lex(text), s);
    BindExactly(c, s);
    var s1 := Bind(Resolver(ResolveShort), c, s).env;
    BoundWithin(c, Namer(s1));
    StandsBy(lex, s1, text, c);
    CompilableBy(lex, s, text, c);
  }

  lemma StandsBy(lex: Lexer, s: State, text: string, c: Chain<real, string>)
    requires Text(c) == lex(text) && AllHaveIds(s, Vars(c)) && WithinLimits(c)
    ensures Stands(lex, s, text, Emit(Rename(Namer(s), c), []))
  {
    assert StandsFor(s, c, Emit(Rename(Namer(s), c), []));
  }

  lemma CompilableBy(lex: Lexer, s: State, text: string, c: Chain<real, string>)
    requires Text(c) == lex(text) && AllFree(s, Vars(c)) && WithinLimits(c)
    ensures Compilable(lex, s, text)
  {
  }

  /**
    Exactly which formulas compile: those within the limits whose variables all have an
    entry, are pairwise distinct and have no id yet, so none that an earlier formula has used.
    The outcome is remembered exactly when the evaluation returns and overruns nothing.
   */
  lemma CompilesExactly(lex: Lexer, s: State, text: string)
    requires Tidy(s) && !s.stuck && text !in s.cache
    ensures
      var s1 := Compiled(lex, s, text);
      && (text in s1.cache && s1.cache[text].Program? <==> Compilable(lex, s, text))
      && (text in s1.cache <==> Defined(lex, s, text))
      && (s1.stuck <==> Blocks(lex, s, text)) && (s1.spoilt <==> s.spoilt || Overruns(lex, s, text))
  {
    BuildKeepsCache(lex, s, text);
    Outcomes(lex, s, text);
    hide Build, Tidy, AllFree, Overfull, Requested, Refused, WithinLimits, Vars, Text;
    if Compilable(lex, s, text) {
      var c: Chain<real, string> :| Text(c) == lex(text) && AllFree(s, Vars(c)) && WithinLimits(c);
      BuildSucceeds(lex, s, text, c);
    }
    if Build(lex, s, text).Done? {
      BuildStands(lex, s, text);
    }
  }

  lemma BuildKeepsCache(lex: Lexer, s: State, text: string)
    requires Tidy(s)
    ensures Build(lex, s, text).env.cache == s.cache && Build(lex, s, text).env.spoilt == s.spoilt
  {
    hide Build, Tidy;
    BuildKeeps(lex, s, text);
  }

  // ----- When an evaluation returns --------------------------------------------------

  /** All names asked for so far were free, and now have their ids. */
  ghost predicate InStep(s: State, s1: State, asked: seq<string>) {
    && Tidy(s1) && !s1.stuck && s1.table == s.table && AllFree(s, asked)
    && forall n :: HasId(s1, n) <==> HasId(s, n) || n in asked
  }

  /** The first name that was not free: the thread is stuck exactly if it has no entry. */
  predicate RefusedAt(s: State, s1: State, asked: seq<string>, i: nat) {
    && i < |asked| && AllFree(s, asked[..i]) && !AllFree(s, asked[..i + 1])
    && (s1.stuck <==> asked[i] !in s.table)
  }

  ghost predicate Refused(s: State, s1: State, asked: seq<string>) {
    exists i: nat :: RefusedAt(s, s1, asked, i)
  }

  lemma RefusedStays(s: State, s1: State, asked: seq<string>, x: string)
    requires Refused(s, s1, asked)
    ensures Refused(s, s1, asked + [x])
  {
    var i: nat :| RefusedAt(s, s1, asked, i);
    assert (asked + [x])[..i] == asked[..i] && (asked + [x])[..i + 1] == asked[..i + 1];
    assert RefusedAt(s, s1, asked + [x], i);
  }

  lemma AsksInStep(s: State, s1: State, asked: seq<string>, x: string)
    requires InStep(s, s1, asked)
    ensures GetId(s1, x).1.Some? ==> InStep(s, GetId(s1, x).0, asked + [x])
    ensures GetId(s1, x).1.None? ==> Refused(s, GetId(s1, x).0, asked + [x])
  {
    hide Tidy, HasId, AllFree, Extends, GetId;
    GetIdExactly(s1, x);
    AllFreeConcat(s, asked, s1, [x]);
    AllFreeOne(s1, x);
    if GetId(s1, x).1.None? {
      assert (asked + [x])[..|asked|] == asked && (asked + [x])[..|asked| + 1] == asked + [x];
      assert RefusedAt(s, GetId(s1, x).0, asked + [x], |asked|);
    }
  }

  lemma Tracks(s: State)
    ensures Follows(Resolver(ResolveShort), Recorder(),
                    (s1: State, asked: seq<string>) => InStep(s, s1, asked),
                    (s1: State, asked: seq<string>) => Refused(s, s1, asked))
  {
    hide InStep, Refused, GetId;
    forall s1: State, asked: seq<string>, x: string | InStep(s, s1, asked)
      ensures GetId(s1, x).1.Some? ==> InStep(s, GetId(s1, x).0, asked + [x])
      ensures GetId(s1, x).1.None? ==> Refused(s, GetId(s1, x).0, asked + [x])
    {
      AsksInStep(s, s1, asked, x);
    }
    forall s1: State, asked: seq<string>, x: string | Refused(s, s1, asked)
      ensures Refused(s, s1, asked + [x])
    {
      RefusedStays(s, s1, asked, x);
    }
  }

  /** The first name asked for that is not free has no entry. */
  predicate BlocksAt(s: State, asked: seq<string>, i: nat) {
    i < |asked| && AllFree(s, asked[..i]) && asked[i] !in s.table
  }

  lemma AllFreeParts(s: State, names: seq<string>, k: nat)
    requires AllFree(s, names) && k < |names|
    ensures Free(s, names[k]) && AllFree(s, names[..k + 1])
  {
  }

  lemma FirstRefusal(s: State, s1: State, asked: seq<string>, i: nat, k: nat)
    requires RefusedAt(s, s1, asked, i) && BlocksAt(s, asked, k)
    ensures i == k
  {
    if k < i {
      assert asked[..i][k] == asked[k];
      AllFreeParts(s, asked[..i], k);
    } else if i < k {
      assert asked[..k][..i + 1] == asked[..i + 1];
      AllFreeParts(s, asked[..k], i);
    }
  }

  lemma AllFreeNeverBlocks(s: State, asked: seq<string>, k: nat)
    requires AllFree(s, asked)
    ensures !BlocksAt(s, asked, k)
  {
    assert k < |asked| ==> Free(s, asked[k]);
  }

  lemma Outcomes(lex: Lexer, s: State, text: string)
    requires Tidy(s) && !s.stuck
    ensures InStep(s, Build(lex, s, text).env, Requested(lex(text)))
      || Refused(s, Build(lex, s, text).env, Requested(lex(text)))
    ensures OverrunBy(Build(lex, s, text)) ==>
      Overfull(lex(text)) && InStep(s, Build(lex, s, text).env, Requested(lex(text)))
    ensures Overfull(lex(text)) ==>
      OverrunBy(Build(lex, s, text)) || Refused(s, Build(lex, s, text).env, Requested(lex(text)))
  {
    var g, h := Resolver(ResolveShort), Recorder();
    var inStep := (s1: State, asked: seq<string>) => InStep(s, s1, asked);
    var apart := (s1: State, asked: seq<string>) => Refused(s, s1, asked);
    assert InStep(s, s, []);
    Tracks(s);
    hide InStep, Refused, Follows, Level;
    LevelFollows(g, h, inStep, apart, lex(text), 0, 0, [], [], s, []);
  }

  /**
    Exactly when the evaluation of a formula that is not in the cache never returns: of the
    names that compiling asks ids for, in order, the first that is not free has no entry.
   */
  lemma BlocksExactly(lex: Lexer, s: State, text: string)
    requires Tidy(s) && !s.stuck && text !in s.cache
    ensures Blocks(lex, s, text) <==> exists i: nat :: BlocksAt(s, Requested(lex(text)), i)
  {
    hide Build, Requested, Tidy, AllFree;
    Outcomes(lex, s, text);
    var s1, asked := Build(lex, s, text).env, Requested(lex(text));
    if i: nat :| BlocksAt(s, asked, i) {
      if InStep(s, s1, asked) {
        AllFreeNeverBlocks(s, asked, i);
      } else {
        var k: nat :| RefusedAt(s, s1, asked, k);
        FirstRefusal(s, s1, asked, k, i);
      }
    }
    if s1.stuck {
      var k: nat :| RefusedAt(s, s1, asked, k);
      assert BlocksAt(s, asked, k);
    }
  }

  // ----- When an evaluation overruns the compiler's arrays -----------------------------------

  /** The text overruns the arrays if none of its variables is refused. */
  predicate Overfull<N>(ts: seq<Token<N>>) {
    OverrunBy(Compile(Recorder(), ts, []))
  }

  /**
    Exactly when the evaluation of a formula that is not in the cache overruns the arrays:
    its text does, and every name asked for by then is free.
   */
  lemma OverrunsExactly(lex: Lexer, s: State, text: string)
    requires Tidy(s) && !s.stuck && text !in s.cache
    ensures Overruns(lex, s, text) <==> Overfull(lex(text)) && AllFree(s, Requested(lex(text)))
  {
    hide Build, Requested, Tidy, AllFree, Overfull;
    Outcomes(lex, s, text);
    var s1, asked := Build(lex, s, text).env, Requested(lex(text));
    if AllFree(s, asked) && Refused(s, s1, asked) {
      var i: nat :| RefusedAt(s, s1, asked, i);
      AllFreeParts(s, asked, i);
    }
  }

  /** The formulas whose texts do so: some level has more than ten rises, or there are over eighty instructions. */
  lemma OverfullExactly<N>(c: Chain<N, string>)
    requires Nesting(c) <= MAX_LEVEL
    ensures Overfull(Text(c)) <==> !KeepsWithin(c)
  {
    var b := Rename((x: string) => 0, c);
    BindRecords(c, []);
    RenameKeepsShape((x: string) => 0, c, [], MAX_OPERATORS);
    OperatorsFitExactly(c, MAX_OPERATORS);
    OperatorsFitExactly(b, MAX_OPERATORS);
    hide Compile, Text, Nesting, RisesWithin, OperatorsFit, Bind, Rename;
    OverrunExactly(Recorder(), c, []);
  }

  lemma LimitsAre<N>(c: Chain<N, string>)
    ensures WithinLimits(c) <==> Nesting(c) <= MAX_LEVEL && KeepsWithin(c)
  {
    OperatorsFitExactly(c, MAX_OPERATORS);
  }

  /** A text of at most ten operators and eighty instructions is not among them, formula or not. */
  lemma ModestIsNotOverfull<N>(ts: seq<Token<N>>)
    requires Modest(ts)
    ensures !Overfull(ts)
  {
    ModestNeverOverruns(Recorder(), ts, []);
  }

  /** For a formula within the limits, an evaluation is defined exactly when no variable of it blocks. */
  lemma DefinedExactly(lex: Lexer, s: State, text: string, c: Chain<real, string>)
    requires Tidy(s) && !s.stuck && Text(c) == lex(text) && WithinLimits(c)
    ensures Defined(lex, s, text) <==> text in s.cache || !exists i: nat :: BlocksAt(s, Vars(c), i)
  {
    hide Text, Tidy, Vars, Build, Requested, AllFree;
    LimitsAre(c);
    OverfullExactly(c);
    RequestedOf(c);
    hide WithinLimits, Overfull, KeepsWithin;
    if text !in s.cache {
      BlocksExactly(lex, s, text);
      OverrunsExactly(lex, s, text);
    }
  }

  /** What compiling the text of a formula asks for: its variables, in order. */
  lemma RequestedOf<N>(c: Chain<N, string>)
    requires WithinLimits(c)
    ensures Requested(Text(c)) == Vars(c)
  {
    hide Text, Compile, Within, WithinLimits, Vars, Bind;
    BindRecords(c, []);
    var b := Bind(Recorder(), c, []);
    RecordedWithin(c, []);
    CompileExactly(Recorder(), Text(c), []);
    assert [] + Vars(c) == Vars(c);
  }

  lemma {:induction false} BindRecords<N>(c: Chain<N, string>, asked: seq<string>)
    ensures Bind(Recorder(), c, asked).chain == Some(Rename((x: string) => 0, c))
    ensures Bind(Recorder(), c, asked).env == asked + Vars(c)
    decreases c, 1
  {
    BindOperandRecords(c.operand, asked);
    if c.Link? {
      BindRecords(c.rest, asked + OperandVars(c.operand));
      assert asked + Vars(c) == asked + OperandVars(c.operand) + Vars(c.rest);
    } else {
      assert OperandVars(c.operand) + [] == OperandVars(c.operand);
    }
  }

  lemma {:induction false} BindOperandRecords<N>(o: Operand<N, string>, asked: seq<string>)
    ensures BindOperand(Recorder(), o, asked).operand == Some(RenameOperand((x: string) => 0, o))
    ensures BindOperand(Recorder(), o, asked).env == asked + OperandVars(o)
    decreases o, 0
  {
    match o
    case Number(_) => assert asked + [] == asked;
    case Variable(_) =>
    case Group(c) => BindRecords(c, asked);
    case Call(c) => BindRecords(c, asked);
  }

  lemma RecordedWithin<N>(c: Chain<N, string>, asked: seq<string>)
    ensures
      var b := Bind(Recorder(), c, asked).chain;
      b.Some? && (Within(b.value, 0, 0, []) <==> WithinLimits(c))
  {
    BindRecords(c, asked);
    BoundWithin(c, (x: string) => 0);
  }

  // Formulas that fail so, by name.

  lemma VariableIsSmall<N>(x: string, ops: seq<OpCode>)
    requires |ops| <= 1
    ensures
      var c: Chain<N, string> := Last(Variable(x));
      OperatorsFit(c, ops, MAX_OPERATORS) && Nesting(c) == 0 && Size(c) == 2 && Vars(c) == [x] && Text(c) == [TVar(x)]
  {
    var o: Operand<N, string> := Variable(x);
    assert OperandOperatorsFit(o, MAX_OPERATORS) && OperandPending(o, ops) == ops;
    assert OperandNesting(o) == 0 && OperandSize(o) == 2 && OperandVars(o) == [x] && OperandText(o) == [TVar(x)];
  }

  lemma SumIsSmall<N>(a: string)
    ensures
      var c: Chain<N, string> := Link(Variable(a), Plus, Last(Variable(a)));
      WithinLimits(c) && Vars(c) == [a, a] && Text(c) == [TVar(a), TOp(Plus), TVar(a)]
  {
    var o: Operand<N, string>, rest: Chain<N, string> := Variable(a), Last(Variable(a));
    VariableIsSmall<N>(a, [Binary(Plus)]);
    assert OperandOperatorsFit(o, MAX_OPERATORS) && OperandPending(o, []) == []
      && Pending([], Binary(Plus)) == [Binary(Plus)];
    assert OperandNesting(o) == 0 && OperandSize(o) == 2 && OperandVars(o) == [a] && OperandText(o) == [TVar(a)];
    assert OperatorsFit(Link(o, Plus, rest), [], MAX_OPERATORS);
  }

  /** `{x}` on a table without x never returns. */
  lemma UnlistedBlocks(lex: Lexer, s: State, text: string, x: string)
    requires Tidy(s) && !s.stuck && text !in s.cache
    requires lex(text) == [TVar(x)] && x !in s.table
    ensures Blocks(lex, s, text)
  {
    var c: Chain<real, string> := Last(Variable(x));
    VariableIsSmall<real>(x, []);
    RequestedOf(c);
    hide Tidy, Blocks, Compile, Text, Vars, Requested;
    BlocksExactly(lex, s, text);
    assert [x][..0] == [];
    AllFreeOne(s, x);
    assert BlocksAt(s, [x], 0);
  }

  lemma TwiceIsNotFree(s: State, a: string)
    ensures !AllFree(s, [a, a])
  {
    assert [a, a][0] == [a, a][1];
  }

  /** `{a}+{a}` compiles for no input a: it is remembered as broken, if a is an input with no id yet. */
  lemma RepeatedIsBroken(lex: Lexer, s: State, text: string, a: string)
    requires Tidy(s) && !s.stuck && text !in s.cache
    requires lex(text) == [TVar(a), TOp(Plus), TVar(a)] && Free(s, a)
    ensures text in Compiled(lex, s, text).cache && Compiled(lex, s, text).cache[text] == Broken
  {
    hide Text, WithinLimits, Vars, Compile, Requested, Tidy, AllFree, Build;
    var d: Chain<real, string> := Link(Variable(a), Plus, Last(Variable(a)));
    SumIsSmall<real>(a);
    RequestedOf(d);
    DefinedExactly(lex, s, text, d);
    CompilesExactly(lex, s, text);
    TwiceIsNotFree(s, a);
    assert forall i: nat :: i < 2 ==> [a, a][i] == a;
    if Compilable(lex, s, text) {
      var c: Chain<real, string> :| Text(c) == lex(text) && AllFree(s, Vars(c)) && WithinLimits(c);
      RequestedOf(c);
    }
  }

  // ----- Coherence over runs -----------------------------------------------------------

  lemma StandsOn(lex: Lexer, s: State, s1: State, text: string, code: seq<Instr<real, int>>)
    requires Stands(lex, s, text, code) && Extends(s, s1)
    ensures Stands(lex, s1, text, code)
  {
    hide Extends, AllHaveIds, Namer;
    var c: Chain<real, string> :| Text(c) == lex(text) && StandsFor(s, c, code);
    RenamesOn(s, s1, c);
    assert StandsFor(s1, c, code);
  }

  /** Whatever the outcome, compiling leaves the table tidy and the given ids as they were. */
  lemma BuildKeeps(lex: Lexer, s: State, text: string)
    requires Tidy(s)
    ensures Tidy(Build(lex, s, text).env) && Extends(s, Build(lex, s, text).env)
  {
    hide Tidy, Extends, GetId, Compile;
    var inv := (s1: State) => Tidy(s1) && Extends(s, s1);
    var g := Resolver(ResolveShort);
    forall s1: State, x: string | inv(s1)
      ensures inv(g.step(s1, x).0)
    {
      GetIdExactly(s1, x);
      ExtendsOn(s, s1, GetId(s1, x).0);
    }
    ExtendsOn(s, s, s);
    CompileKeeps(g, inv, lex(text), s);
  }

  /** Compiling itself never marks the state as spoilt. */
  lemma BuildKeepsMark(lex: Lexer, s: State, text: string)
    ensures Build(lex, s, text).env.spoilt == s.spoilt
  {
    hide Compile;
    var inv := (s1: State) => s1.spoilt == s.spoilt;
    CompileKeeps(Resolver(ResolveShort), inv, lex(text), s);
  }

  lemma CoherentOn(lex: Lexer, s: State, s1: State)
    requires Coherent(lex, s) && Tidy(s1) && Extends(s, s1) && !s1.stuck
    ensures Coherent(lex, s1)
  {
    hide Tidy, Stands;
    forall t | t in s1.cache && s1.cache[t].Program?
      ensures Stands(lex, s1, t, s1.cache[t].code)
    {
      StandsOn(lex, s, s1, t, s.cache[t].code);
    }
  }

  lemma RememberedCoherent(lex: Lexer, s: State, text: string, c: Cached)
    requires Coherent(lex, s) && (c.Program? ==> Stands(lex, s, text, c.code))
    ensures Coherent(lex, Remembered(s, text, c))
  {
    hide Stands;
    var s1 := Remembered(s, text, c);
    forall t | t in s1.cache && s1.cache[t].Program?
      ensures Stands(lex, s1, t, s1.cache[t].code)
    {
      StandsAlike(lex, s, s1, t, s1.cache[t].code);
    }
  }

  lemma StandsAlike(lex: Lexer, s: State, s1: State, text: string, code: seq<Instr<real, int>>)
    requires Stands(lex, s, text, code) && s1.nodes == s.nodes && s1.table == s.table
    ensures Stands(lex, s1, text, code)
  {
    var c: Chain<real, string> :| Text(c) == lex(text) && StandsFor(s, c, code);
    RenameAgrees(Namer(s), Namer(s1), c);
    assert StandsFor(s1, c, code);
  }

  lemma CompiledCoherent(lex: Lexer, s: State, text: string)
    requires Coherent(lex, s) && Defined(lex, s, text)
    ensures Coherent(lex, Compiled(lex, s, text)) && text in Compiled(lex, s, text).cache
  {
    hide Build, Tidy, Extends, Stands;
    if text !in s.cache {
      BuildKeeps(lex, s, text);
      CoherentOn(lex, s, Build(lex, s, text).env);
      if Build(lex, s, text).Done? {
        BuildStands(lex, s, text);
        RememberedCoherent(lex, Build(lex, s, text).env, text, Program(Build(lex, s, text).code));
      } else {
        RememberedCoherent(lex, Build(lex, s, text).env, text, Broken);
      }
    }
  }

  lemma EntryTidy(s: State, name: string, e: Inputs.Entry)
    requires Tidy(s) && name in s.table && s.table[name] in s.nodes
    ensures
      var s1 := s.(nodes := s.nodes[s.table[name] := s.nodes[s.table[name]].(entry := e)]);
      Tidy(s1) && Extends(s, s1)
  {
  }

  lemma AssignedTidy(s: State, w: Inputs.Write)
    requires Tidy(s)
    ensures Tidy(Assigned(s, w)) && Extends(s, Assigned(s, w)) && Assigned(s, w).stuck == s.stuck
  {
    hide Tidy, Extends, HasId, IdOf;
    StuckTidy(s);
    if w.name in s.table {
      if s.table[w.name] in s.nodes {
        EntryTidy(s, w.name, Inputs.Rewritten(s.nodes[s.table[w.name]].entry, w));
      }
    } else if w.v.Some? {
      CreatedTidy(s, w.name, Inputs.Created(w));
    }
  }

  lemma AssignedCoherent(lex: Lexer, s: State, w: Inputs.Write)
    requires Coherent(lex, s)
    ensures Coherent(lex, Assigned(s, w)) && Assigned(s, w).cache == s.cache
  {
    hide Stands, Tidy, Extends;
    AssignedTidy(s, w);
    CoherentOn(lex, s, Assigned(s, w));
  }

  /** The input table without ids and addresses. */
  function TableOf(s: State): Inputs.Table {
    map n | n in s.table && s.table[n] in s.nodes :: s.nodes[s.table[n]].entry
  }

  lemma TableApart(s: State)
    requires Tidy(s)
    ensures forall n :: n in s.table ==> s.table[n] in s.nodes && s.table[n] != s.brk
    ensures forall m, n :: m in s.table && n in s.table && s.table[m] == s.table[n] ==> m == n
  {
  }

  lemma EntryWritten(s: State, n: string, e: Inputs.Entry)
    requires n in s.table && forall m :: m in s.table ==> s.table[m] in s.nodes
    requires forall m :: m in s.table && s.table[m] == s.table[n] ==> m == n
    ensures TableOf(s.(nodes := s.nodes[s.table[n] := s.nodes[s.table[n]].(entry := e)])) == TableOf(s)[n := e]
  {
    var t1 := TableOf(s.(nodes := s.nodes[s.table[n] := s.nodes[s.table[n]].(entry := e)]));
    assert forall m :: m in t1 <==> m in s.table;
    assert forall m :: m in TableOf(s) <==> m in s.table;
    assert forall m :: m in s.table && m != n ==> s.table[m] != s.table[n];
  }

  lemma EntryCreated(s: State, n: string, e: Inputs.Entry)
    requires n !in s.table && forall m :: m in s.table ==> s.table[m] in s.nodes && s.table[m] != s.brk
    ensures TableOf(Created(s, n, e)) == TableOf(s)[n := e]
  {
    var t1 := TableOf(Created(s, n, e));
    assert forall m :: m in t1 <==> m in s.table || m == n;
    assert forall m :: m in TableOf(s) <==> m in s.table;
  }

  /** An assignment is the input table's assignment, whatever ids there are. */
  lemma AssignedIsPut(s: State, w: Inputs.Write)
    requires Tidy(s)
    ensures TableOf(Assigned(s, w)) == Inputs.Put(TableOf(s), w)
  {
    hide Tidy, Inputs.Rewritten, Inputs.Created;
    TableApart(s);
    if w.name in s.table {
      EntryWritten(s, w.name, Inputs.Rewritten(s.nodes[s.table[w.name]].entry, w));
    } else if w.v.Some? {
      EntryCreated(s, w.name, Inputs.Created(w));
    }
  }

  /** While a table is rebuilt, its entries come from the old table or are fresh. */
  predicate Rebuilding(s: State, was: map<string, nat>) {
    && (forall n :: n in was ==> was[n] in s.nodes && s.nodes[was[n]].name == n)
    && (forall n :: n in s.table ==> s.table[n] in s.nodes && s.nodes[s.table[n]].name == n)
    && (forall a :: a in s.nodes ==> a < s.brk)
  }

  lemma ResyncedOneWell(s: State, was: map<string, nat>, name: string)
    requires Rebuilding(s, was)
    ensures
      var s1 := ResyncedOne(s, was, name);
      && Rebuilding(s1, was) && s1.lastId == s.lastId && s.brk <= s1.brk && s1.stuck == s.stuck && s1.spoilt == s.spoilt
      && (forall n :: n in s1.table <==> n in s.table || n == name)
      && (forall a :: a in s.nodes ==> a in s1.nodes && s1.nodes[a] == s.nodes[a])
      && (forall n :: n in s.table ==> s1.table[n] == s.table[n])
      && (name !in s.table && name in was ==> s1.table[name] == was[name])
  {
    if name !in s.table && name !in was {
      hide Rebuilding;
      CreatedRebuilds(s, was, name, Inputs.Entry(Inputs.Str("N/A"), Inputs.New));
    }
  }

  lemma CreatedRebuilds(s: State, was: map<string, nat>, name: string, entry: Inputs.Entry)
    requires Rebuilding(s, was) && name !in s.table
    ensures Rebuilding(Created(s, name, entry), was) && s.brk !in s.nodes
  {
  }

  lemma {:induction false} ResyncedWell(s: State, was: map<string, nat>, names: seq<string>)
    requires Rebuilding(s, was)
    ensures
      var s1 := Resynced(s, was, names);
      && Rebuilding(s1, was) && s1.lastId == s.lastId && s1.stuck == s.stuck && s1.spoilt == s.spoilt
      && (forall n :: n in s1.table <==> n in s.table || n in names)
      && (forall a :: a in s.nodes ==> a in s1.nodes && s1.nodes[a] == s.nodes[a])
  {
    hide Rebuilding, ResyncedOne;
    if names != [] {
      var before := names[..|names| - 1];
      ResyncedWell(s, was, before);
      ResyncedOneWell(Resynced(s, was, before), was, names[|names| - 1]);
      assert names == before + [names[|names| - 1]];
    }
  }

  /** After a reload the inputs are the rules' names, none has an id, and nothing is cached. */
  lemma ReloadedCoherent(lex: Lexer, s: State, names: Option<seq<string>>)
    requires Tidy(s) && !s.stuck && !s.spoilt
    ensures
      var s1 := Reloaded(s, names);
      && Coherent(lex, s1) && s1.cache == map[] && s1.assoc == map[] && s1.lastId == s.lastId
      && (forall n :: !HasId(s1, n))
      && (names.Some? ==> forall n :: n in s1.table <==> n in names.value)
  {
    if names.Some? {
      ResyncedWell(s.(table := map[]), s.table, names.value);
    }
  }

  /** Entries that the new rules still name keep their value and their mark. */
  lemma {:induction false} ReloadKeepsValues(s: State, names: seq<string>, n: string)
    requires Tidy(s) && n in s.table && n in names
    ensures
      var s1 := Reloaded(s, Some(names));
      n in s1.table && s1.table[n] in s1.nodes && s1.nodes[s1.table[n]].entry == s.nodes[s.table[n]].entry
  {
    ResyncedWell(s.(table := map[]), s.table, names);
    ResyncedKeeps(s.(table := map[]), s.table, names, n);
  }

  lemma {:induction false} ResyncedKeeps(s: State, was: map<string, nat>, names: seq<string>, n: string)
    requires Rebuilding(s, was) && n in was && n !in s.table && n in names
    ensures n in Resynced(s, was, names).table && Resynced(s, was, names).table[n] == was[n]
  {
    hide Rebuilding, ResyncedOne;
    var before := names[..|names| - 1];
    assert names == before + [names[|names| - 1]];
    ResyncedWell(s, was, before);
    ResyncedOneWell(Resynced(s, was, before), was, names[|names| - 1]);
    if n in before {
      ResyncedKeeps(s, was, before, n);
    }
  }

  /** Entries that only the new rules name start as the text "N/A", marked NEW. */
  lemma {:induction false} ReloadCreates(s: State, names: seq<string>, n: string)
    requires Tidy(s) && n !in s.table && n in names
    ensures
      var s1 := Reloaded(s, Some(names));
      && n in s1.table && s1.table[n] in s1.nodes
      && s1.nodes[s1.table[n]].entry.v == Inputs.Str("N/A") && s1.nodes[s1.table[n]].entry.mark == Inputs.New
  {
    ResyncedWell(s.(table := map[]), s.table, names);
    ResyncedCreates(s.(table := map[]), s.table, names, n);
  }

  lemma {:induction false} ResyncedCreates(s: State, was: map<string, nat>, names: seq<string>, n: string)
    requires Rebuilding(s, was) && n !in was && n !in s.table && n in names
    ensures
      var s1 := Resynced(s, was, names);
      && n in s1.table && s1.table[n] in s1.nodes && s1.nodes[s1.table[n]].name == n
      && s1.nodes[s1.table[n]].entry == Inputs.Entry(Inputs.Str("N/A"), Inputs.New)
  {
    hide Rebuilding, ResyncedOne;
    var before, last := names[..|names| - 1], names[|names| - 1];
    assert names == before + [last];
    ResyncedWell(s, was, before);
    ResyncedOneWell(Resynced(s, was, before), was, last);
    if n in before {
      ResyncedCreates(s, was, before, n);
    } else {
      CreatedOne(Resynced(s, was, before), was, n);
    }
  }

  lemma CreatedOne(s: State, was: map<string, nat>, n: string)
    requires n !in s.table && n !in was
    ensures
      var s1 := ResyncedOne(s, was, n);
      && n in s1.table && s1.table[n] in s1.nodes && s1.nodes[s1.table[n]].name == n
      && s1.nodes[s1.table[n]].entry == Inputs.Entry(Inputs.Str("N/A"), Inputs.New)
  {
  }

  datatype Request = Evaluate(text: string) | Assign(w: Inputs.Write) | Reload(names: Option<seq<string>>)

  function Step(lex: Lexer, s: State, op: Request): State {
    match op
    case Evaluate(text) => Compiled(lex, s, text)
    case Assign(w) => Assigned(s, w)
    case Reload(names) => Reloaded(s, names)
  }

  function After(lex: Lexer, s: State, ops: seq<Request>): State
    decreases |ops|
  {
    if ops == [] then s else After(lex, Step(lex, s, ops[0]), ops[1..])
  }

  /** Every evaluation of the run returns, and overruns none of the compiler's fixed arrays. */
  predicate Runs(lex: Lexer, s: State, ops: seq<Request>)
    decreases |ops|
  {
    ops == [] ||
    ((ops[0].Evaluate? ==> Defined(lex, s, ops[0].text)) && Runs(lex, Step(lex, s, ops[0]), ops[1..]))
  }

  /** No evaluation of the run blocks. */
  predicate Returns(lex: Lexer, s: State, ops: seq<Request>)
    decreases |ops|
  {
    ops == [] ||
    ((ops[0].Evaluate? ==> !Blocks(lex, s, ops[0].text)) && Returns(lex, Step(lex, s, ops[0]), ops[1..]))
  }

  const EMPTY := State(map[], map[], map[], 0, 0, map[], false, false)

  lemma EmptyCoherent(lex: Lexer)
    ensures Coherent(lex, EMPTY)
  {
  }

  /**
    Coherence over every run of evaluations, assignments and rule reloads: each cached
    program is its formula's, each of its ids is now the id of the variable that the formula
    names, and each id leads to the live table entry of that name.
   */
  lemma {:induction false} RunsCoherent(lex: Lexer, s: State, ops: seq<Request>)
    requires Coherent(lex, s) && Runs(lex, s, ops)
    ensures Coherent(lex, After(lex, s, ops))
    decreases |ops|
  {
    hide Coherent, Compiled, Assigned, Reloaded, Build;
    if ops != [] {
      match ops[0] {
        case Evaluate(text) => CompiledCoherent(lex, s, text);
        case Assign(w) => AssignedCoherent(lex, s, w);
        case Reload(names) =>
          CoherentTidy(lex, s);
          ReloadedCoherent(lex, s, names);
      }
      RunsCoherent(lex, Step(lex, s, ops[0]), ops[1..]);
    }
  }

  /** Where no text evaluated is one that overruns the arrays, only blocking can end a run. */
  lemma {:induction false} RunsUnlessBlocked(lex: Lexer, s: State, ops: seq<Request>)
    requires Coherent(lex, s)
    requires forall i :: 0 <= i < |ops| && ops[i].Evaluate? ==> !Overfull(lex(ops[i].text))
    ensures Runs(lex, s, ops) <==> Returns(lex, s, ops)
    decreases |ops|
  {
    hide Coherent, Compiled, Assigned, Reloaded, Blocks, Overruns, Overfull;
    if ops != [] {
      var more: seq<Request> := ops[1..];
      assert forall i :: 0 <= i < |more| ==> more[i] == ops[i + 1];
      CoherentTidy(lex, s);
      if ops[0].Evaluate? {
        NotOverfull(lex, s, ops[0].text);
      }
      if ops[0].Evaluate? ==> Defined(lex, s, ops[0].text) {
        RunsCoherent(lex, s, ops[..1]);
        StepIsAfter(lex, s, ops);
        RunsUnlessBlocked(lex, Step(lex, s, ops[0]), more);
      }
    }
  }

  lemma StepIsAfter(lex: Lexer, s: State, ops: seq<Request>)
    requires ops != []
    ensures After(lex, s, ops[..1]) == Step(lex, s, ops[0])
  {
    assert ops[..1][1..] == [];
  }

  lemma NotOverfull(lex: Lexer, s: State, text: string)
    requires Tidy(s) && !s.stuck && !Overfull(lex(text))
    ensures !Overruns(lex, s, text)
  {
    hide Tidy, Overfull, Build;
    if text !in s.cache {
      OverrunsExactly(lex, s, text);
    }
  }

  lemma CoherentTidy(lex: Lexer, s: State)
    requires Coherent(lex, s)
    ensures Tidy(s) && !s.stuck && !s.spoilt
  {
  }

  /** Between reloads a cached formula, or a cached failure, never changes. */
  lemma {:induction false} CacheIsKept(lex: Lexer, s: State, ops: seq<Request>, text: string)
    requires Coherent(lex, s) && Runs(lex, s, ops) && text in s.cache
    requires forall i :: 0 <= i < |ops| ==> !ops[i].Reload?
    ensures text in After(lex, s, ops).cache && After(lex, s, ops).cache[text] == s.cache[text]
    decreases |ops|
  {
    hide Coherent, Build;
    if ops != [] {
      CoherentTidy(lex, s);
      match ops[0] {
        case Evaluate(t) =>
          CompiledCoherent(lex, s, t);
          BuildKeeps(lex, s, t);
        case Assign(w) => AssignedCoherent(lex, s, w);
      }
      CacheIsKept(lex, Step(lex, s, ops[0]), ops[1..], text);
    }
  }

  // ----- The meaning of a cached run ---------------------------------------------------

  /** The name's id, if it has one, fits in the compiler's 16 bits. */
  predicate IdFits(s: State, name: string) {
    HasId(s, name) ==>
      Widened(Short(s.nodes[s.table[name]].id.value)) == s.nodes[s.table[name]].id.value
  }

  lemma FewIdsFit(s: State, name: string)
    requires Tidy(s) && s.lastId <= 0x7FFF
    ensures IdFits(s, name)
  {
    if HasId(s, name) {
      ShortWidened(s.nodes[s.table[name]].id.value);
    }
  }

  /** A variable's compiled id leads to its own entry exactly when the id fits in 16 bits with its sign. */
  lemma LeadsHomeExactly(s: State, name: string)
    requires Tidy(s) && HasId(s, name) && s.nodes[s.table[name]].id.value < 0x1_0000_0000
    ensures
      var id, back := s.nodes[s.table[name]].id.value, Widened(IdOf(s, name));
      (back in s.assoc && s.assoc[back] == s.table[name]) <==> id <= 0x7FFF || id >= 0xFFFF_8000
  {
    ShortWidened(s.nodes[s.table[name]].id.value);
  }

  /** The 32768th id is out of reach: a formula that uses it fails at every run. */
  lemma TooManyIds(s: State, name: string)
    requires Tidy(s) && HasId(s, name) && s.nodes[s.table[name]].id.value == 0x8000 && s.lastId < 0xFFFF_8000
    ensures ById(s, Widened(IdOf(s, name))) == None
  {
  }

  lemma LooksUpAlike(s: State, name: string)
    requires Tidy(s) && HasId(s, name) && IdFits(s, name)
    ensures ById(s, Widened(IdOf(s, name))) == ByName(s, name)
  {
  }

  lemma {:induction false} EmitRefersTo<N>(c: Chain<N, string>, ops: seq<OpCode>, known: set<string>)
    requires forall x :: x in Vars(c) ==> x in known
    ensures RefersTo(Emit(c, ops), known)
    decreases c, 1
  {
    hide Flush, Emitted, Pending, OperandCode;
    assert forall x :: x in OperandVars(c.operand) ==> x in Vars(c);
    EmitOperandRefersTo(c.operand, ops, known);
    var ops1 := OperandPending(c.operand, ops);
    match c
    case Last(_) => FlushRefersTo<N>(ops1, known);
    case Link(_, op, rest) =>
      EmitRefersTo(rest, Pending(ops1, Binary(op)), known);
      EmittedRefersTo<N>(ops1, Binary(op), known);
  }

  lemma {:induction false} EmitOperandRefersTo<N>(o: Operand<N, string>, ops: seq<OpCode>, known: set<string>)
    requires forall x :: x in OperandVars(o) ==> x in known
    ensures RefersTo(OperandCode(o, ops), known)
    decreases o, 0
  {
    hide Emit, Emitted;
    match o
    case Number(_) =>
    case Variable(x) => assert x in OperandVars(o);
    case Group(c) => EmitRefersTo(c, [], known);
    case Call(c) =>
      EmitRefersTo(c, [], known);
      EmittedRefersTo<N>(ops, CallInt, known);
  }

  lemma EmittedRefersTo<N>(ops: seq<OpCode>, op: OpCode, known: set<string>)
    ensures RefersTo<N, string>(Emitted(ops, op), known)
  {
  }

  lemma {:induction false} FlushRefersTo<N>(ops: seq<OpCode>, known: set<string>)
    ensures RefersTo<N, string>(Flush(ops), known)
    decreases |ops|
  {
    if ops != [] {
      FlushRefersTo<N>(ops[..|ops| - 1], known);
    }
  }

  function Outcome1(r: Result<real>): Option<real> {
    match r
    case Value(v) => Some(v)
    case Failure(_) => None
  }

  /** Running by ids is running by names. */
  lemma RunByNames(m: Arithmetic, s: State, c: Chain<real, string>)
    requires Tidy(s) && AllHaveIds(s, Vars(c)) && forall x :: x in Vars(c) ==> IdFits(s, x)
    ensures Run(IdMachine(m, s), Emit(Rename(Namer(s), c), [])) == Run(NameMachine(m, s), Emit(c, []))
  {
    hide Emit, Run, Tidy, IdFits, Vars, ById, ByName;
    var known := set x | x in Vars(c);
    EmitRenamed(Namer(s), c, []);
    EmitRefersTo(c, [], known);
    forall x | x in known
      ensures NameMachine(m, s).lookup(x) == IdMachine(m, s).lookup(Namer(s)(x))
    {
      var i :| 0 <= i < |Vars(c)| && Vars(c)[i] == x;
      LooksUpAlike(s, x);
    }
    RunRenamed(Namer(s), NameMachine(m, s), IdMachine(m, s), known, Emit(c, []));
  }

  predicate Mentions<N>(ts: seq<Token<N>>, x: string) {
    exists i :: 0 <= i < |ts| && ts[i].TVar? && ts[i].name == x
  }

  lemma MentionsConcat<N>(a: seq<Token<N>>, b: seq<Token<N>>, x: string)
    requires Mentions(a, x) || Mentions(b, x)
    ensures Mentions(a + b, x)
  {
    if i :| 0 <= i < |a| && a[i].TVar? && a[i].name == x {
      assert (a + b)[i] == a[i];
    } else {
      var i :| 0 <= i < |b| && b[i].TVar? && b[i].name == x;
      assert (a + b)[|a| + i] == b[i];
    }
  }

  /** A formula's variables are those its text mentions. */
  lemma {:induction false} VarsAreMentioned<N>(c: Chain<N, string>, x: string)
    requires x in Vars(c)
    ensures Mentions(Text(c), x)
    decreases c, 1
  {
    hide Mentions;
    var o := c.operand;
    if x in OperandVars(o) {
      OperandVarsAreMentioned(o, x);
      if c.Link? {
        MentionsConcat(OperandText(o), [TOp(c.op)], x);
        MentionsConcat(OperandText(o) + [TOp(c.op)], Text(c.rest), x);
      }
    } else {
      VarsAreMentioned(c.rest, x);
      MentionsConcat(OperandText(o) + [TOp(c.op)], Text(c.rest), x);
    }
  }

  lemma {:induction false} OperandVarsAreMentioned<N>(o: Operand<N, string>, x: string)
    requires x in OperandVars(o)
    ensures Mentions(OperandText(o), x)
    decreases o, 0
  {
    match o
    case Variable(_) => assert OperandText(o)[0] == TVar(x);
    case Group(c) =>
      hide Mentions;
      VarsAreMentioned(c, x);
      MentionsConcat([TOpen], Text(c), x);
      MentionsConcat([TOpen] + Text(c), [TClose], x);
    case Call(c) =>
      VarsAreMentioned(c, x);
      MentionsConcat([TInt, TOpen], Text(c), x);
      MentionsConcat([TInt, TOpen] + Text(c), [TClose], x);
    case Number(_) =>
  }

  /**
    The meaning of an evaluation from the cache, after any run: the formula's instructions
    on the inputs' present values; and where one pop suffices, the usual reading's value, or
    a failure just when the reading fails.
   */
  lemma CachedMeaning(lex: Lexer, m: Arithmetic, s: State, ops: seq<Request>, text: string)
    requires Coherent(lex, s) && Runs(lex, s, ops)
    requires
      var s1 := After(lex, s, ops);
      && text in s1.cache && s1.cache[text].Program?
      && forall x :: Mentions(lex(text), x) ==> IdFits(s1, x)
    ensures
      var s1 := After(lex, s, ops);
      exists c: Chain<real, string> ::
        && Text(c) == lex(text)
        && Answer(m, s1, text) == Outcome1(Run(NameMachine(m, s1), Emit(c, [])))
        && (OnePopSuffices(c, []) ==> Answer(m, s1, text) == Outcome1(Eval(NameMachine(m, s1), Reading(c))))
  {
    hide Emit, Run, Eval, Tidy, IdFits, AllHaveIds, OnePopSuffices, Reading, After, Text, Nesting, Step, Mentions, Vars;
    RunsCoherent(lex, s, ops);
    var s1 := After(lex, s, ops);
    var c: Chain<real, string> :| Text(c) == lex(text) && StandsFor(s1, c, s1.cache[text].code);
    forall x | x in Vars(c)
      ensures IdFits(s1, x)
    {
      VarsAreMentioned(c, x);
    }
    RunByNames(m, s1, c);
    if OnePopSuffices(c, []) {
      PrecedenceExactly(c);
      ReadingIsShallow(c);
      RunPostfix(NameMachine(m, s1), Reading(c));
    }
  }
}
