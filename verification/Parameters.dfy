/**
  The cache of parsed parameter strings in src/parameters_utils.c: handles that are counted,
  released and evicted.  Parsing itself is a parameter: it succeeds or it does not.
 */
module Parameters {
  import opened Wrappers

  const CACHING_MAX := 200
  const IN_USE_RANGE := 0x1_0000

  /** What the two levels of the cache are keyed by: the label pointers, then the text. */
  datatype Key = Key(labels: seq<nat>, text: string)

  datatype Parsed = Parsed(inUse: nat, fromCache: bool)

  datatype Element = Element(at: nat, lastAccess: int)

  /**
    Parsed parameters by address, the cache, and its counter; `held` is the history's share,
    the handles given out and not yet released.
   */
  datatype State = State(objs: map<nat, Parsed>, cache: map<Key, Element>, counter: int, brk: nat, held: multiset<nat>)

  const EMPTY := State(map[], map[], 0, 0, multiset{})

  datatype Op =
    | Alloc(key: Key, parses: bool, junk: bool, now: int)
    | Release(at: nat)
    | Clean(age: int, force: bool, now: int)

  /** A count as the 16-bit field holds it. */
  function Wrap(n: int): nat {
    n % IN_USE_RANGE
  }

  lemma WrapSteps(n: int)
    ensures Wrap(Wrap(n) + 1) == Wrap(n + 1) && Wrap(Wrap(n) - 1) == Wrap(n - 1)
    ensures 0 <= n < IN_USE_RANGE ==> Wrap(n) == n
  {
    assert n == IN_USE_RANGE * (n / IN_USE_RANGE) + n % IN_USE_RANGE;
  }

  function Counted(p: Parsed, change: int): Parsed {
    p.(inUse := Wrap(p.inUse + change))
  }

  /** `junk` is what the allocated memory holds where from_cache is: only the cache ever sets it. */
  function Allocated(s: State, key: Key, parses: bool, junk: bool, now: int): (State, Option<nat>) {
    if key.text == "" || key.labels == [] then (s, None)
    else if key in s.cache && s.cache[key].at in s.objs then
      var a := s.cache[key].at;
      (s.(cache := s.cache[key := s.cache[key].(lastAccess := now)], objs := s.objs[a := Counted(s.objs[a], 1)],
          held := s.held + multiset{a}),
       Some(a))
    else if !parses then (s, None)
    else
      var a := s.brk;
      var s1 := s.(brk := a + 1, held := s.held + multiset{a});
      if s.counter >= CACHING_MAX then (s1.(objs := s.objs[a := Parsed(1, junk)]), Some(a))
      else
        (s1.(objs := s.objs[a := Parsed(1, true)], cache := s.cache[key := Element(a, now)], counter := s.counter + 1),
         Some(a))
  }

  function Released(s: State, a: nat): State
    requires a in s.objs
  {
    var p := Counted(s.objs[a], -1);
    var s1 := s.(held := s.held - multiset{a});
    if p.fromCache || p.inUse != 0 then s1.(objs := s.objs[a := p]) else s1.(objs := s.objs - {a})
  }

  predicate Stale(e: Element, age: int, now: int) {
    age == 0 || now - e.lastAccess > age
  }

  predicate Due(s: State, key: Key, age: int, force: bool, now: int)
    requires key in s.cache
  {
    && Stale(s.cache[key], age, now)
    && (force || (s.cache[key].at in s.objs && s.objs[s.cache[key].at].inUse == 0))
  }

  function DueKeys(s: State, age: int, force: bool, now: int): set<Key> {
    set k | k in s.cache && Due(s, k, age, force, now)
  }

  function Addresses(cache: map<Key, Element>, keys: set<Key>): set<nat>
    requires keys <= cache.Keys
  {
    set k | k in keys :: cache[k].at
  }

  function Evicted(s: State, keys: set<Key>): State
    requires keys <= s.cache.Keys
  {
    s.(cache := s.cache - keys, objs := s.objs - Addresses(s.cache, keys), counter := s.counter - |keys|)
  }

  function Step(s: State, op: Op): State {
    match op
    case Alloc(key, parses, junk, now) => Allocated(s, key, parses, junk, now).0
    case Release(a) => if a in s.objs then Released(s, a) else s
    case Clean(age, force, now) => Evicted(s, DueKeys(s, age, force, now))
  }

  // ----- Handle safety ------------------------------------------------------------------

  /** Two entries never share parsed parameters, and what is cached is marked so. */
  predicate CacheApart(objs: map<nat, Parsed>, cache: map<Key, Element>) {
    && (forall k :: k in cache ==> cache[k].at in objs && objs[cache[k].at].fromCache)
    && (forall k, l :: k in cache && l in cache && cache[k].at == cache[l].at ==> k == l)
  }

  /** A held handle is live and counted; what was never cached is held once. */
  predicate LiveAt(objs: map<nat, Parsed>, held: multiset<nat>, brk: nat, a: nat) {
    && (a in held ==> a in objs)
    && (a in objs ==>
          && a < brk && objs[a].inUse == Wrap(held[a])
          && (!objs[a].fromCache ==> held[a] == 1))
  }

  ghost predicate HandlesLive(objs: map<nat, Parsed>, held: multiset<nat>, brk: nat) {
    forall a: nat :: LiveAt(objs, held, brk, a)
  }

  ghost predicate Safe(s: State) {
    CacheApart(s.objs, s.cache) && HandlesLive(s.objs, s.held, s.brk) && s.counter == |s.cache| <= CACHING_MAX
  }

  /** Only handles given out are released, no handle count wraps, and no clean is forced. */
  predicate Proper(s: State, op: Op) {
    match op
    case Alloc(key, _, _, _) => key in s.cache ==> s.held[s.cache[key].at] + 1 < IN_USE_RANGE
    case Release(a) => a in s.held
    case Clean(_, force, _) => !force
  }

  predicate Runs(s: State, ops: seq<Op>)
    decreases |ops|
  {
    ops == [] || (Proper(s, ops[0]) && Runs(Step(s, ops[0]), ops[1..]))
  }

  function After(s: State, ops: seq<Op>): State
    decreases |ops|
  {
    if ops == [] then s else After(Step(s, ops[0]), ops[1..])
  }

  /** Each count of handles is below the range of the counter. */
  predicate Unwrapped(s: State) {
    forall a :: a in s.held ==> s.held[a] < IN_USE_RANGE
  }

  // Small steps, on the parts of the state that they change.

  lemma ApartTouched(objs: map<nat, Parsed>, cache: map<Key, Element>, key: Key, now: int)
    requires CacheApart(objs, cache) && key in cache
    ensures CacheApart(objs, cache[key := cache[key].(lastAccess := now)])
  {
  }

  lemma ApartRecounted(objs: map<nat, Parsed>, cache: map<Key, Element>, a: nat, p: Parsed)
    requires CacheApart(objs, cache) && (a in objs && objs[a].fromCache ==> p.fromCache)
    ensures CacheApart(objs[a := p], cache)
  {
  }

  lemma ApartAdded(objs: map<nat, Parsed>, cache: map<Key, Element>, key: Key, a: nat, now: int)
    requires CacheApart(objs, cache) && key !in cache && a !in objs
    ensures CacheApart(objs[a := Parsed(1, true)], cache[key := Element(a, now)])
  {
  }

  lemma ApartFreed(objs: map<nat, Parsed>, cache: map<Key, Element>, a: nat)
    requires CacheApart(objs, cache) && a in objs && !objs[a].fromCache
    ensures CacheApart(objs - {a}, cache)
  {
  }

  lemma ApartEvicted(objs: map<nat, Parsed>, cache: map<Key, Element>, keys: set<Key>)
    requires CacheApart(objs, cache) && keys <= cache.Keys
    ensures CacheApart(objs - Addresses(cache, keys), cache - keys)
  {
    forall k | k in cache - keys
      ensures cache[k].at !in Addresses(cache, keys)
    {
    }
  }

  lemma SameSize(m: map<Key, Element>, k: Key, e: Element)
    ensures k in m ==> |m[k := e]| == |m|
    ensures k !in m ==> |m[k := e]| == |m| + 1
  {
    assert m[k := e].Keys == m.Keys + {k};
    assert |m[k := e].Keys| == |m[k := e]| && |m.Keys| == |m|;
  }

  lemma LivePlus(objs: map<nat, Parsed>, held: multiset<nat>, brk: nat, a: nat)
    requires HandlesLive(objs, held, brk) && a in objs && objs[a].fromCache
    ensures HandlesLive(objs[a := Counted(objs[a], 1)], held + multiset{a}, brk)
  {
    hide Wrap;
    WrapSteps(held[a]);
    var objs1, held1 := objs[a := Counted(objs[a], 1)], held + multiset{a};
    forall x: nat
      ensures LiveAt(objs1, held1, brk, x)
    {
      assert LiveAt(objs, held, brk, x);
    }
  }

  lemma LiveFresh(objs: map<nat, Parsed>, held: multiset<nat>, brk: nat, fromCache: bool)
    requires HandlesLive(objs, held, brk)
    ensures brk !in objs && brk !in held
    ensures HandlesLive(objs[brk := Parsed(1, fromCache)], held + multiset{brk}, brk + 1)
  {
    hide Wrap;
    WrapSteps(1);
    assert LiveAt(objs, held, brk, brk);
    var objs1, held1, brk1 := objs[brk := Parsed(1, fromCache)], held + multiset{brk}, brk + 1;
    forall x: nat
      ensures LiveAt(objs1, held1, brk1, x)
    {
      assert LiveAt(objs, held, brk, x);
    }
  }

  /** An allocation gives out a live handle: the entry's own, or a fresh one. */
  lemma AllocKeepsSafe(s: State, key: Key, parses: bool, junk: bool, now: int)
    requires Safe(s)
    ensures
      var (s1, a) := Allocated(s, key, parses, junk, now);
      && Safe(s1) && (a.Some? ==> s1.held == s.held + multiset{a.value}) && (a.None? ==> s1 == s)
      && (a.Some? <==> key.text != "" && key.labels != [] && (key in s.cache || parses))
      && (a.Some? ==> if key in s.cache then a.value == s.cache[key].at else a.value !in s.held)
  {
    CachedLive(s, key);
    hide CacheApart, HandlesLive, Counted;
    if key.text == "" || key.labels == [] {
    } else if key in s.cache {
      var a := s.cache[key].at;
      ApartTouched(s.objs, s.cache, key, now);
      ApartRecounted(s.objs, s.cache[key := s.cache[key].(lastAccess := now)], a, Counted(s.objs[a], 1));
      CountedKeeps(s.objs[a], 1);
      LivePlus(s.objs, s.held, s.brk, a);
      SameSize(s.cache, key, s.cache[key].(lastAccess := now));
    } else if parses {
      LiveFresh(s.objs, s.held, s.brk, if s.counter >= CACHING_MAX then junk else true);
      if s.counter >= CACHING_MAX {
        ApartRecounted(s.objs, s.cache, s.brk, Parsed(1, junk));
      } else {
        ApartAdded(s.objs, s.cache, key, s.brk, now);
        SameSize(s.cache, key, Element(s.brk, now));
      }
    }
  }

  lemma CountedKeeps(p: Parsed, change: int)
    ensures Counted(p, change).fromCache == p.fromCache
  {
  }

  lemma CachedLive(s: State, key: Key)
    requires Safe(s)
    ensures key in s.cache ==> s.cache[key].at in s.objs && s.objs[s.cache[key].at].fromCache
  {
  }

  lemma LiveMinus(objs: map<nat, Parsed>, held: multiset<nat>, brk: nat, a: nat)
    requires HandlesLive(objs, held, brk) && a in held
    ensures a in objs
    ensures
      var p := Counted(objs[a], -1);
      HandlesLive(if p.fromCache || p.inUse != 0 then objs[a := p] else objs - {a}, held - multiset{a}, brk)
    ensures !objs[a].fromCache ==> held[a] == 1 && Counted(objs[a], -1).inUse == 0
  {
    hide Wrap;
    WrapSteps(held[a]);
    WrapSteps(0);
    assert LiveAt(objs, held, brk, a);
    var p := Counted(objs[a], -1);
    var objs1 := if p.fromCache || p.inUse != 0 then objs[a := p] else objs - {a};
    var held1 := held - multiset{a};
    forall x: nat
      ensures LiveAt(objs1, held1, brk, x)
    {
      assert LiveAt(objs, held, brk, x);
    }
  }

  /** A release frees exactly what is not marked as cached. */
  lemma ReleaseKeepsSafe(s: State, a: nat)
    requires Safe(s) && a in s.held
    ensures a in s.objs && Safe(Released(s, a)) && Released(s, a).held == s.held - multiset{a}
    ensures a in Released(s, a).objs <==> s.objs[a].fromCache
  {
    hide CacheApart, HandlesLive, Counted;
    LiveMinus(s.objs, s.held, s.brk, a);
    CountedKeeps(s.objs[a], -1);
    if s.objs[a].fromCache {
      ApartRecounted(s.objs, s.cache, a, Counted(s.objs[a], -1));
    } else {
      ApartFreed(s.objs, s.cache, a);
    }
  }

  lemma LiveEvicted(objs: map<nat, Parsed>, held: multiset<nat>, brk: nat, gone: set<nat>)
    requires HandlesLive(objs, held, brk)
    ensures HandlesLive(objs - gone, held, brk) <==> forall a :: a in held ==> a in objs - gone
    ensures HandlesLive(objs - gone, held, brk) <==> forall a :: a in gone ==> a !in held || a !in objs
  {
    hide Wrap;
    if a: nat :| a in held && a in gone {
      assert LiveAt(objs, held, brk, a);
      assert !LiveAt(objs - gone, held, brk, a);
    }
    forall a: nat | a in held
      ensures a in objs
    {
      assert LiveAt(objs, held, brk, a);
    }
    if forall a :: a in held ==> a in objs - gone {
      var objs1 := objs - gone;
      forall a: nat
        ensures LiveAt(objs1, held, brk, a)
      {
        assert LiveAt(objs, held, brk, a);
      }
    }
  }

  /**
    An eviction leaves every handle live exactly when no entry due has handles out.  One that
    is not forced does so exactly when no entry old enough has a multiple of 65536 handles
    out, for those the 16-bit count shows as none; so always, as long as no count has wrapped.
   */
  lemma CleanSafeExactly(s: State, age: int, force: bool, now: int)
    requires Safe(s)
    ensures
      var s1 := Evicted(s, DueKeys(s, age, force, now));
      && (Safe(s1) <==> forall a :: a in s.held ==> a in s1.objs)
      && (Safe(s1) <==> forall k :: k in DueKeys(s, age, force, now) ==> s.cache[k].at !in s.held)
      && (!force ==>
            (Safe(s1) <==>
             forall k :: k in s.cache && Stale(s.cache[k], age, now) && s.cache[k].at in s.held ==>
               s.held[s.cache[k].at] % IN_USE_RANGE != 0))
      && (!force && Unwrapped(s) ==> Safe(s1))
  {
    var due := DueKeys(s, age, force, now);
    DueCounts(s, age, force, now);
    EvictionCounts(s, due);
    ApartEvicted(s.objs, s.cache, due);
    LiveEvicted(s.objs, s.held, s.brk, Addresses(s.cache, due));
    hide CacheApart, HandlesLive, Due, DueKeys, Stale;
  }

  /** What the count of an entry that is due says of its handles. */
  lemma DueCounts(s: State, age: int, force: bool, now: int)
    requires Safe(s)
    ensures forall k :: k in DueKeys(s, age, force, now) ==> k in s.cache && s.cache[k].at in s.objs
    ensures !force ==> forall k :: k in s.cache ==>
      (k in DueKeys(s, age, force, now) <==> Stale(s.cache[k], age, now) && s.held[s.cache[k].at] % IN_USE_RANGE == 0)
    ensures !force && Unwrapped(s) ==> forall k :: k in DueKeys(s, age, force, now) ==> s.cache[k].at !in s.held
  {
    hide Stale;
    forall k | k in s.cache
      ensures s.cache[k].at in s.objs && s.objs[s.cache[k].at].inUse == s.held[s.cache[k].at] % IN_USE_RANGE
    {
      assert LiveAt(s.objs, s.held, s.brk, s.cache[k].at);
    }
  }

  /**
    Which entries a clean leaves, each as it was: those whose last access lies no more than
    `age` seconds back, where an age of 0 spares none, and, unless it is forced, those whose
    count of handles is not zero.  The parsed parameters of the others are freed, and nothing
    else is.
   */
  lemma CleanDoes(s: State, age: int, force: bool, now: int)
    requires Safe(s)
    ensures
      var s1 := Step(s, Clean(age, force, now));
      && (forall k :: k in s.cache ==>
            (k in s1.cache <==>
             || (age != 0 && now - s.cache[k].lastAccess <= age)
             || (!force && s.held[s.cache[k].at] % 0x1_0000 != 0)))
      && (forall k :: k in s1.cache ==> k in s.cache && s1.cache[k] == s.cache[k])
      && (forall a :: a in s.objs ==>
            (a in s1.objs <==> forall k :: k in s.cache && s.cache[k].at == a ==> k in s1.cache))
      && (forall a :: a in s1.objs ==> a in s.objs && s1.objs[a] == s.objs[a])
      && s1.held == s.held && s1.brk == s.brk
  {
    DueCounts(s, age, force, now);
    var s1 := Step(s, Clean(age, force, now));
    forall a | a in s.objs
      ensures a in s1.objs <==> forall k :: k in s.cache && s.cache[k].at == a ==> k in s1.cache
    {
      if k :| k in s.cache && s.cache[k].at == a && k !in s1.cache {
        assert a in Addresses(s.cache, DueKeys(s, age, force, now));
      }
    }
    hide HandlesLive;
  }

  /**
    Parameters given out at one time and cleaned at another: a clean that is not forced keeps
    them in the cache, and a forced one does as long as they are no older than its age.
   */
  lemma UsedThenCleaned(s: State, key: Key, junk: bool, used: int, age: int, force: bool, now: int)
    requires Safe(s) && key.text != "" && key.labels != [] && (key in s.cache || s.counter < 200)
    requires key in s.cache ==> s.held[s.cache[key].at] + 1 < 0x1_0000
    ensures
      var s1 := Step(s, Alloc(key, true, junk, used));
      var s2 := Step(s1, Clean(age, force, now));
      && key in s1.cache && s1.cache[key].at in s1.held && s1.cache[key].lastAccess == used
      && (key in s2.cache <==> !force || (age != 0 && now - used <= age))
  {
    hide *;
    AllocRenews(s, key, junk, used);
    CleanDoes(Step(s, Alloc(key, true, junk, used)), age, force, now);
  }

  lemma AllocRenews(s: State, key: Key, junk: bool, used: int)
    requires Safe(s) && key.text != "" && key.labels != [] && (key in s.cache || s.counter < 200)
    requires key in s.cache ==> s.held[s.cache[key].at] + 1 < 0x1_0000
    ensures
      var s1 := Step(s, Alloc(key, true, junk, used));
      && Safe(s1) && key in s1.cache && s1.cache[key].lastAccess == used
      && s1.cache[key].at in s1.held && s1.held[s1.cache[key].at] % 0x1_0000 != 0
  {
    hide Safe, Counted;
    AllocKeepsSafe(s, key, true, junk, used);
    FreshUnheld(s);
    CachedLive(s, key);
  }

  /** 65536 handles of one entry, then a clean that is not forced: the count is 0 and the memory is freed. */
  lemma WrappedCleanExample(key: Key, now: int)
    ensures
      var s := State(map[0 := Parsed(0, true)], map[key := Element(0, now)], 1, 1, multiset{}[0 := IN_USE_RANGE]);
      Safe(s) && !Safe(Evicted(s, DueKeys(s, 0, false, now)))
  {
    var s := State(map[0 := Parsed(0, true)], map[key := Element(0, now)], 1, 1, multiset{}[0 := IN_USE_RANGE]);
    assert forall a: nat :: LiveAt(s.objs, s.held, s.brk, a);
    CleanSafeExactly(s, 0, false, now);
  }

  /** One string parsed and held, then a forced clean: the handle is out and its memory is gone. */
  lemma ForcedCleanExample(key: Key, junk: bool, now: int)
    requires key.text != "" && key.labels != []
    ensures
      var s := Allocated(EMPTY, key, true, junk, now).0;
      var s1 := Evicted(s, DueKeys(s, 0, true, now));
      0 in s1.held && 0 !in s1.objs
  {
    var s := Allocated(EMPTY, key, true, junk, now).0;
    assert s.cache == map[key := Element(0, now)] && s.held == multiset{0};
    assert key in DueKeys(s, 0, true, now);
    assert s.cache[key].at in Addresses(s.cache, DueKeys(s, 0, true, now));
  }

  lemma EvictionCounts(s: State, due: set<Key>)
    requires due <= s.cache.Keys
    ensures |(s.cache - due)| == |s.cache| - |due|
  {
    assert (s.cache - due).Keys == s.cache.Keys - due;
    assert |s.cache.Keys - due| == |s.cache.Keys| - |due|;
    assert |(s.cache - due).Keys| == |s.cache - due| && |s.cache.Keys| == |s.cache|;
  }

  /** One proper call keeps the state safe. */
  lemma StepKeepsSafe(s: State, op: Op)
    requires Safe(s) && Unwrapped(s) && Proper(s, op)
    ensures Safe(Step(s, op)) && Unwrapped(Step(s, op))
  {
    match op
    case Alloc(key, parses, junk, now) =>
      AllocKeepsSafe(s, key, parses, junk, now);
      FreshUnheld(s);
      hide Safe, Allocated;
    case Release(a) =>
      ReleaseKeepsSafe(s, a);
      hide Safe, Released;
    case Clean(age, force, now) =>
      CleanSafeExactly(s, age, force, now);
  }

  lemma FreshUnheld(s: State)
    requires Safe(s)
    ensures s.brk !in s.held && s.brk !in s.objs
  {
    assert LiveAt(s.objs, s.held, s.brk, s.brk);
  }

  lemma HeldLive(s: State, a: nat)
    requires Safe(s) && a in s.held
    ensures a in s.objs
  {
    assert LiveAt(s.objs, s.held, s.brk, a);
  }

  /**
    Over every run of allocations, releases and unforced cleans: a held handle is never
    freed, each count of uses is the number of handles out, and the counter is the number of
    cached entries, never above 200.
   */
  lemma {:induction false} HandleSafety(s: State, ops: seq<Op>)
    requires Safe(s) && Unwrapped(s) && Runs(s, ops)
    ensures
      var s1 := After(s, ops);
      && (forall a :: a in s1.held ==> a in s1.objs)
      && (forall a :: a in s1.objs ==> s1.objs[a].inUse == s1.held[a])
      && s1.counter == |s1.cache| <= CACHING_MAX
      && Safe(s1) && Unwrapped(s1)
    decreases |ops|
  {
    if ops == [] {
      CountsExact(s);
    } else {
      StepKeepsSafe(s, ops[0]);
      hide Safe, Unwrapped, Step;
      HandleSafety(Step(s, ops[0]), ops[1..]);
    }
  }

  lemma CountsExact(s: State)
    requires Safe(s) && Unwrapped(s)
    ensures forall a :: a in s.objs ==> s.objs[a].inUse == s.held[a]
    ensures forall a :: a in s.held ==> a in s.objs
  {
    hide Wrap;
    forall a: nat
      ensures (a in s.objs ==> s.objs[a].inUse == s.held[a]) && (a in s.held ==> a in s.objs)
    {
      assert LiveAt(s.objs, s.held, s.brk, a);
      WrapSteps(s.held[a]);
      assert s.held[a] == 0 || a in s.held;
    }
  }

  // ----- Parameters that the cache had no room for ----------------------------------------

  /** The handle is out once, for parameters that are in no cache entry. */
  predicate Uncached(s: State, a: nat, junk: bool) {
    && s.held[a] == 1 && a in s.objs && s.objs[a] == Parsed(1, junk) && a < s.brk
    && forall k :: k in s.cache ==> s.cache[k].at != a
  }

  lemma AllocKeepsUncached(s: State, key: Key, parses: bool, mark: bool, now: int, a: nat, junk: bool)
    requires Safe(s) && Uncached(s, a, junk)
    ensures Uncached(Allocated(s, key, parses, mark, now).0, a, junk)
  {
    CachedLive(s, key);
    hide Safe;
  }

  lemma ReleaseKeepsUncached(s: State, b: nat, a: nat, junk: bool)
    requires b in s.objs && b in s.held && Uncached(s, a, junk) && a != b
    ensures Uncached(Released(s, b), a, junk)
  {
  }

  lemma EvictionKeepsUncached(s: State, keys: set<Key>, a: nat, junk: bool)
    requires keys <= s.cache.Keys && Uncached(s, a, junk)
    ensures Uncached(Evicted(s, keys), a, junk)
  {
  }

  lemma StepKeepsUncached(s: State, op: Op, a: nat, junk: bool)
    requires Safe(s) && Proper(s, op) && Uncached(s, a, junk) && op != Release(a)
    ensures Uncached(Step(s, op), a, junk)
  {
    hide Safe, Allocated, Released, Evicted, Uncached;
    match op
    case Alloc(key, parses, mark, now) =>
      AllocKeepsUncached(s, key, parses, mark, now, a, junk);
    case Release(b) =>
      HeldLive(s, b);
      ReleaseKeepsUncached(s, b, a, junk);
    case Clean(age, force, now) =>
      EvictionKeepsUncached(s, DueKeys(s, age, force, now), a, junk);
  }

  /**
    Parameters allocated when the cache is full are freed at their release, however much
    later, exactly when the memory they were put in did not by chance hold the cache's mark;
    otherwise they stay for ever, neither held nor cached.
   */
  lemma {:induction false} UncachedFreedExactly(s: State, ops: seq<Op>, a: nat, junk: bool)
    requires Safe(s) && Unwrapped(s) && Uncached(s, a, junk) && Runs(s, ops) && Release(a) !in ops
    ensures
      var s1 := After(s, ops);
      && a in s1.objs && Uncached(s1, a, junk)
      && (a !in Released(s1, a).objs <==> !junk)
      && a !in Released(s1, a).held
    decreases |ops|
  {
    if ops == [] {
      hide HandlesLive, CacheApart;
    } else {
      StepKeepsUncached(s, ops[0], a, junk);
      StepKeepsSafe(s, ops[0]);
      hide Safe, Unwrapped, Step, Uncached, Released;
      UncachedFreedExactly(Step(s, ops[0]), ops[1..], a, junk);
    }
  }

  lemma FullCacheUncached(s: State, key: Key, junk: bool, now: int)
    requires Safe(s) && s.counter >= CACHING_MAX && key !in s.cache && key.text != "" && key.labels != []
    ensures Allocated(s, key, true, junk, now).1 == Some(s.brk)
    ensures Uncached(Allocated(s, key, true, junk, now).0, s.brk, junk)
  {
    FreshUnheld(s);
    forall k | k in s.cache
      ensures s.cache[k].at != s.brk
    {
      CachedLive(s, k);
    }
  }

  lemma EmptySafe()
    ensures Safe(EMPTY) && Unwrapped(EMPTY)
  {
  }

  // ----- The cache as the program updates it ----------------------------------------------

  class Cache {
    var objs: map<nat, Parsed>
    var cache: map<Key, Element>
    var counter: int
    var brk: nat
    ghost var held: multiset<nat>

    ghost function View(): State
      reads this
    {
      State(objs, cache, counter, brk, held)
    }

    constructor ()
      ensures View() == EMPTY
    {
      objs, cache, counter, brk, held := map[], map[], 0, 0, multiset{};
    }

    method GetFromCache(key: Key, now: int) returns (p: Option<nat>)
      modifies this`cache
      ensures p == if key in old(cache) then Some(old(cache)[key].at) else None
      ensures cache == if key in old(cache) then old(cache)[key := old(cache)[key].(lastAccess := now)] else old(cache)
    {
      if key !in cache {
        return None;
      }
      cache := cache[key := cache[key].(lastAccess := now)];
      return Some(cache[key].at);
    }

    method AddToCache(key: Key, p: nat, now: int) returns (ok: bool)
      requires p in objs && key !in cache
      modifies this`cache, this`objs, this`counter
      ensures ok == (old(counter) < CACHING_MAX)
      ensures cache == if ok then old(cache)[key := Element(p, now)] else old(cache)
      ensures objs == if ok then old(objs)[p := old(objs)[p].(fromCache := true)] else old(objs)
      ensures counter == old(counter) + if ok then 1 else 0
    {
      if counter >= CACHING_MAX {
        return false;
      }
      cache := cache[key := Element(p, now)];
      objs := objs[p := objs[p].(fromCache := true)];
      counter := counter + 1;
      return true;
    }

    /** A parsed object of its own, cached if there is room. */
    method AllocNew(key: Key, junk: bool, now: int) returns (a: nat)
      requires key !in cache
      modifies this
      ensures a == old(brk) && brk == old(brk) + 1 && held == old(held) + multiset{a}
      ensures objs == old(objs)[a := Parsed(1, old(counter) < CACHING_MAX || junk)]
      ensures old(counter) < CACHING_MAX ==> cache == old(cache)[key := Element(a, now)] && counter == old(counter) + 1
      ensures old(counter) >= CACHING_MAX ==> cache == old(cache) && counter == old(counter)
    {
      a := brk;
      brk := brk + 1;
      objs := objs[a := Parsed(0, junk)];
      var ok := AddToCache(key, a, now);
      objs := objs[a := objs[a].(inUse := 1)];
      held := held + multiset{a};
    }

    method AllocParsed(key: Key, parses: bool, junk: bool, now: int) returns (p: Option<nat>)
      requires Safe(View())
      modifies this
      ensures (View(), p) == Allocated(old(View()), key, parses, junk, now)
    {
      hide Safe, Wrap;
      ghost var s := View();
      CachedLive(s, key);
      FreshUnheld(s);
      if key.text == "" || key.labels == [] {
        return None;
      }
      p := GetFromCache(key, now);
      if p.Some? {
        objs := objs[p.value := objs[p.value].(inUse := Wrap(objs[p.value].inUse + 1))];
        held := held + multiset{p.value};
        return;
      }
      if !parses {
        return None;
      }
      var a := AllocNew(key, junk, now);
      return Some(a);
    }

    method ReleaseParsed(a: nat)
      requires Safe(View()) && a in held
      modifies this
      ensures a in old(objs) && View() == Released(old(View()), a)
    {
      hide Safe, Wrap;
      ghost var s := View();
      HeldLive(s, a);
      objs := objs[a := objs[a].(inUse := Wrap(objs[a].inUse - 1))];
      held := held - multiset{a};
      if objs[a].fromCache {
        return;
      }
      if objs[a].inUse == 0 {
        objs := objs - {a};
        assert objs == s.objs - {a};
      }
    }

    method CleanCache(age: int, force: bool, now: int)
      requires Safe(View())
      modifies this
      ensures View() == Evicted(old(View()), DueKeys(old(View()), age, force, now))
    {
      hide Safe, Evicted;
      ghost var s := View();
      EvictedNone(s);
      ghost var due := DueKeys(s, age, force, now);
      ghost var gone: set<Key> := {};
      var left := cache.Keys;
      while left != {}
        invariant left <= s.cache.Keys && gone == due - left
        invariant View() == Evicted(s, gone)
        decreases left
      {
        var k :| k in left;
        EvictedStill(s, gone, k);
        var e := cache[k];
        if age == 0 || now - e.lastAccess > age {
          if force || objs[e.at].inUse == 0 {
            EvictedOne(s, gone, k);
            cache := cache - {k};
            objs := objs - {e.at};
            counter := counter - 1;
            gone := gone + {k};
          }
        }
        assert k in gone <==> k in due;
        left := left - {k};
      }
      assert gone == due;
    }
  }

  lemma EvictedNone(s: State)
    ensures Evicted(s, {}) == s
  {
    assert Addresses(s.cache, {}) == {};
  }

  lemma EvictedStill(s: State, gone: set<Key>, k: Key)
    requires Safe(s) && gone <= s.cache.Keys && k in s.cache && k !in gone
    ensures
      var s1 := Evicted(s, gone);
      && k in s1.cache && s1.cache[k] == s.cache[k]
      && s.cache[k].at in s.objs && s.cache[k].at in s1.objs && s1.objs[s.cache[k].at] == s.objs[s.cache[k].at]
  {
  }

  lemma EvictedOne(s: State, gone: set<Key>, k: Key)
    requires Safe(s) && gone <= s.cache.Keys && k in s.cache && k !in gone
    ensures
      var s1 := Evicted(s, gone);
      Evicted(s, gone + {k}) ==
      s1.(cache := s1.cache - {k}, objs := s1.objs - {s.cache[k].at}, counter := s1.counter - 1)
  {
    assert |gone + {k}| == |gone| + 1;
    assert s.cache - (gone + {k}) == (s.cache - gone) - {k};
    assert Addresses(s.cache, gone + {k}) == Addresses(s.cache, gone) + {s.cache[k].at};
  }
}
