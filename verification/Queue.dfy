/**
  The queue of src/mea_queue.c: a doubly linked list with a cursor, and a sorted index
  over its data that is searched by bisection.
 */
module Queue {
  import opened Wrappers

  // ----- What the queue is for its callers -----------------------------------------

  /** Where the cursor is: nowhere, on an element, or on an element that was freed under it. */
  datatype Cursor = Nowhere | On(at: nat) | Dangling

  function Without<T>(s: seq<T>, k: nat): (r: seq<T>)
    requires k < |s|
    ensures |r| == |s| - 1
  {
    s[..k] + s[k + 1..]
  }

  datatype Abs<T> = Abs(items: seq<T>, cursor: Cursor) {
    predicate Valid() {
      cursor.On? ==> cursor.at < |items|
    }

    function Put(x: T): Abs<T> {
      Abs([x] + items, if cursor.On? then On(cursor.at + 1) else cursor)
    }

    function Take(): Abs<T>
      requires items != []
    {
      var n := |items| - 1;
      Abs(items[..n], if cursor == On(n) then Dangling else cursor)
    }

    function First(): Abs<T> {
      if items == [] then this else Abs(items, On(0))
    }

    function Last(): Abs<T> {
      if items == [] then this else Abs(items, On(|items| - 1))
    }

    function Next(): Abs<T>
      requires Valid() && !cursor.Dangling?
    {
      if cursor.Nowhere? then this
      else Abs(items, if cursor.at + 1 < |items| then On(cursor.at + 1) else Nowhere)
    }

    function Prev(): Abs<T>
      requires Valid() && !cursor.Dangling?
    {
      if cursor.Nowhere? then this
      else Abs(items, if cursor.at > 0 then On(cursor.at - 1) else Nowhere)
    }

    /** Removing needs a live cursor, except that an only element goes whether or not the cursor is on it. */
    predicate CanRemove() {
      items != [] ==> cursor.On? || (|items| == 1 && cursor.Nowhere?)
    }

    /** With one element left, it is removed wherever the cursor is. */
    function RemoveCurrent(): Abs<T>
      requires Valid() && CanRemove()
    {
      if items == [] then this
      else if |items| == 1 then Abs([], Nowhere)
      else
        var k := cursor.at;
        Abs(Without(items, k), if k + 1 < |items| then On(k) else Nowhere)
    }

    /** Emptying the queue leaves the cursor where it was. */
    function Cleanup(): Abs<T> {
      Abs([], if cursor.On? then Dangling else cursor)
    }
  }

  // ----- What the calls do to the element under the cursor ------------------------------

  /** What the cursor is on, if it is on anything. */
  function Under<T>(s: Abs<T>): Option<T>
    requires s.Valid()
  {
    if s.cursor.On? then Some(s.items[s.cursor.at]) else None
  }

  /** Removing takes out just the element under the cursor, and leaves the cursor on the one behind it, if any. */
  lemma RemoveDoes<T>(s: Abs<T>, before: seq<T>, x: T, behind: seq<T>)
    requires s == Abs(before + [x] + behind, On(|before|))
    ensures s.RemoveCurrent().Valid() && Under(s) == Some(x) && s.RemoveCurrent().items == before + behind
    ensures Under(s.RemoveCurrent()) == if behind == [] then None else Some(behind[0])
    ensures behind == [] ==> s.RemoveCurrent().cursor == Nowhere
  {
    var items := before + [x] + behind;
    assert items[..|before|] == before && items[|before| + 1..] == behind;
    assert before + [] == before;
  }

  /** An only element is removed wherever the cursor is not freed, and nothing from an empty queue. */
  lemma RemoveOnlyDoes<T>(x: T)
    ensures Abs([x], Nowhere).RemoveCurrent() == Abs([x], On(0)).RemoveCurrent() == Abs([], Nowhere)
    ensures var none: Abs<T> := Abs([], Nowhere); none.RemoveCurrent() == none
  {
  }

  /** What goes in leaves the cursor on its element, and what comes out does unless it is that one. */
  lemma CursorStays<T>(s: Abs<T>, x: T)
    requires s.Valid() && !s.cursor.Dangling?
    ensures s.Put(x).Valid() && Under(s.Put(x)) == Under(s)
    ensures s.items != [] ==>
      && s.Take().Valid()
      && (s.cursor != On(|s.items| - 1) ==> Under(s.Take()) == Under(s))
      && (s.cursor == On(|s.items| - 1) ==> s.Take().cursor == Dangling)
  {
  }

  /** The cursor goes to the newest element, the oldest one, one further, or one back; never does the content change. */
  lemma CursorMoves<T>(s: Abs<T>)
    requires s.Valid() && !s.cursor.Dangling?
    ensures s.First().items == s.Last().items == s.Next().items == s.Prev().items == s.items
    ensures s.First().Valid() && s.Last().Valid() && s.Next().Valid() && s.Prev().Valid()
    ensures s.items == [] ==> s.First() == s.Last() == s
    ensures s.items != [] ==> Under(s.First()) == Some(s.items[0]) && Under(s.Last()) == Some(s.items[|s.items| - 1])
    ensures s.cursor.Nowhere? ==> s.Next() == s.Prev() == s
    ensures s.cursor.On? ==>
      && Under(s.Next()) == (if s.cursor.at + 1 < |s.items| then Some(s.items[s.cursor.at + 1]) else None)
      && Under(s.Prev()) == (if s.cursor.at > 0 then Some(s.items[s.cursor.at - 1]) else None)
  {
  }

  // ----- The order of an index --------------------------------------------------------

  /** A comparison function as qsort needs it: signs agree both ways round, and it is transitive. */
  ghost predicate IsOrder<T(!new)>(cmp: (T, T) -> int) {
    && (forall a, b :: cmp(a, b) > 0 <==> cmp(b, a) < 0)
    && (forall a, b, c :: cmp(a, b) <= 0 && cmp(b, c) <= 0 ==> cmp(a, c) <= 0)
  }

  ghost predicate Sorted<T>(cmp: (T, T) -> int, s: seq<T>) {
    forall i, j :: 0 <= i < j < |s| ==> cmp(s[i], s[j]) <= 0
  }

  function Insert<T>(cmp: (T, T) -> int, x: T, s: seq<T>): seq<T> {
    if s == [] || cmp(x, s[0]) <= 0 then [x] + s else [s[0]] + Insert(cmp, x, s[1..])
  }

  /** What qsort leaves: the library call is modelled by its result. */
  function Sort<T>(cmp: (T, T) -> int, s: seq<T>): (r: seq<T>)
    ensures |r| == |s|
  {
    if s == [] then []
    else
      InsertLength(cmp, s[0], Sort(cmp, s[1..]));
      Insert(cmp, s[0], Sort(cmp, s[1..]))
  }

  lemma InsertLength<T>(cmp: (T, T) -> int, x: T, s: seq<T>)
    ensures |Insert(cmp, x, s)| == |s| + 1
  {
  }

  lemma {:induction false} InsertKeeps<T>(cmp: (T, T) -> int, x: T, s: seq<T>)
    ensures multiset(Insert(cmp, x, s)) == multiset{x} + multiset(s)
  {
    if s != [] && cmp(x, s[0]) > 0 {
      InsertKeeps(cmp, x, s[1..]);
      assert s == [s[0]] + s[1..];
    }
  }

  /** `y` is no larger than anything in `s`. */
  ghost predicate Below<T>(cmp: (T, T) -> int, y: T, s: seq<T>) {
    forall j :: 0 <= j < |s| ==> cmp(y, s[j]) <= 0
  }

  lemma BelowPermutation<T>(cmp: (T, T) -> int, y: T, s: seq<T>, t: seq<T>)
    requires Below(cmp, y, s) && multiset(t) == multiset(s)
    ensures Below(cmp, y, t)
  {
    forall j | 0 <= j < |t|
      ensures cmp(y, t[j]) <= 0
    {
      assert t[j] in multiset(t);
    }
  }

  lemma SortedCons<T>(cmp: (T, T) -> int, y: T, s: seq<T>)
    requires Below(cmp, y, s) && Sorted(cmp, s)
    ensures Sorted(cmp, [y] + s)
  {
    forall i, j | 0 <= i < j < |s| + 1
      ensures cmp(([y] + s)[i], ([y] + s)[j]) <= 0
    {
      assert i > 0 ==> ([y] + s)[i] == s[i - 1];
      assert ([y] + s)[j] == s[j - 1];
    }
  }

  lemma SortedTail<T>(cmp: (T, T) -> int, s: seq<T>)
    requires s != [] && Sorted(cmp, s)
    ensures Sorted(cmp, s[1..]) && Below(cmp, s[0], s[1..])
  {
  }

  lemma BelowHead<T(!new)>(cmp: (T, T) -> int, x: T, s: seq<T>)
    requires IsOrder(cmp) && s != [] && Sorted(cmp, s) && cmp(x, s[0]) <= 0
    ensures Below(cmp, x, s)
  {
    forall j | 0 <= j < |s|
      ensures cmp(x, s[j]) <= 0
    {
      assert j > 0 ==> cmp(s[0], s[j]) <= 0;
    }
  }

  lemma {:induction false} InsertSorted<T(!new)>(cmp: (T, T) -> int, x: T, s: seq<T>)
    requires IsOrder(cmp) && Sorted(cmp, s)
    ensures Sorted(cmp, Insert(cmp, x, s))
  {
    hide IsOrder, Sorted, Below;
    if s == [] {
      SortedSingle(cmp, x);
    } else if cmp(x, s[0]) <= 0 {
      BelowHead(cmp, x, s);
      SortedCons(cmp, x, s);
    } else {
      SortedTail(cmp, s);
      InsertSorted(cmp, x, s[1..]);
      InsertKeeps(cmp, x, s[1..]);
      BelowBoth(cmp, s[0], x, s[1..]);
      BelowPermutation(cmp, s[0], [x] + s[1..], Insert(cmp, x, s[1..]));
      SortedCons(cmp, s[0], Insert(cmp, x, s[1..]));
    }
  }

  lemma SortedSingle<T>(cmp: (T, T) -> int, x: T)
    ensures Sorted(cmp, [x] + [])
  {
  }

  lemma BelowBoth<T(!new)>(cmp: (T, T) -> int, y: T, x: T, s: seq<T>)
    requires IsOrder(cmp) && cmp(x, y) > 0 && Below(cmp, y, s)
    ensures Below(cmp, y, [x] + s)
  {
  }

  lemma {:induction false} SortSorts<T(!new)>(cmp: (T, T) -> int, s: seq<T>)
    requires IsOrder(cmp)
    ensures Sorted(cmp, Sort(cmp, s))
    ensures multiset(Sort(cmp, s)) == multiset(s)
  {
    if s != [] {
      SortSorts(cmp, s[1..]);
      InsertKeeps(cmp, s[0], Sort(cmp, s[1..]));
      InsertSorted(cmp, s[0], Sort(cmp, s[1..]));
      assert s == [s[0]] + s[1..];
    }
  }

  // ----- Runs of the queue ------------------------------------------------------------

  datatype Op<T> = DoPut(x: T) | DoTake | DoFirst | DoLast | DoNext | DoPrev | DoRemove | DoCleanup

  /** A queue with what has gone in and what has come out, in order, and how many were dropped. */
  datatype History<T> = History(now: Abs<T>, ins: seq<T>, outs: seq<T>, dropped: nat)

  /** The calls that follow neither a freed cursor nor a null one. */
  predicate Enabled<T>(s: Abs<T>, op: Op<T>) {
    match op
    case DoNext => !s.cursor.Dangling?
    case DoPrev => !s.cursor.Dangling?
    case DoRemove => s.CanRemove()
    case _ => true
  }

  function Step<T>(h: History<T>, op: Op<T>): History<T>
    requires h.now.Valid() && Enabled(h.now, op)
  {
    var s := h.now;
    match op
    case DoPut(x) => h.(now := s.Put(x), ins := h.ins + [x])
    case DoTake => if s.items == [] then h else h.(now := s.Take(), outs := h.outs + [s.items[|s.items| - 1]])
    case DoFirst => h.(now := s.First())
    case DoLast => h.(now := s.Last())
    case DoNext => h.(now := s.Next())
    case DoPrev => h.(now := s.Prev())
    case DoRemove => h.(now := s.RemoveCurrent(), dropped := h.dropped + |s.items| - |s.RemoveCurrent().items|)
    case DoCleanup => h.(now := s.Cleanup(), dropped := h.dropped + |s.items|)
  }

  /** Whether every call of a run is enabled when it is made. */
  predicate Runs<T>(h: History<T>, ops: seq<Op<T>>)
    decreases |ops|
  {
    ops == [] || (h.now.Valid() && Enabled(h.now, ops[0]) && Runs(Step(h, ops[0]), ops[1..]))
  }

  function After<T>(h: History<T>, ops: seq<Op<T>>): History<T>
    requires Runs(h, ops)
    decreases |ops|
  {
    if ops == [] then h else After(Step(h, ops[0]), ops[1..])
  }

  function Reverse<T>(s: seq<T>): (r: seq<T>)
    ensures |r| == |s|
  {
    if s == [] then [] else Reverse(s[1..]) + [s[0]]
  }

  lemma {:induction false} ReverseAt<T>(s: seq<T>, k: nat)
    requires k < |s|
    ensures Reverse(s)[k] == s[|s| - 1 - k]
  {
    if k < |s| - 1 {
      ReverseAt(s[1..], k);
    }
  }

  /** `a` is `b` with some elements left out. */
  ghost predicate Subsequence<T>(a: seq<T>, b: seq<T>)
    decreases |b|
  {
    a == [] || (b != [] &&
      ((a[|a| - 1] == b[|b| - 1] && Subsequence(a[..|a| - 1], b[..|b| - 1])) || Subsequence(a, b[..|b| - 1])))
  }

  lemma {:induction false} SubsequenceLength<T>(a: seq<T>, b: seq<T>)
    requires Subsequence(a, b)
    ensures |a| <= |b|
    ensures |a| == |b| ==> a == b
    decreases |b|
  {
    if a != [] {
      var a', b' := a[..|a| - 1], b[..|b| - 1];
      if a[|a| - 1] == b[|b| - 1] && Subsequence(a', b') {
        SubsequenceLength(a', b');
        assert a == a' + [a[|a| - 1]] && b == b' + [b[|b| - 1]];
      } else {
        SubsequenceLength(a, b');
      }
    }
  }

  lemma {:induction false} SubsequenceWithout<T>(a: seq<T>, b: seq<T>, k: nat)
    requires Subsequence(a, b) && k < |a|
    ensures Subsequence(Without(a, k), b)
    decreases |b|
  {
    var a', b' := a[..|a| - 1], b[..|b| - 1];
    if a[|a| - 1] == b[|b| - 1] && Subsequence(a', b') {
      if k == |a| - 1 {
        assert Without(a, k) == a';
      } else {
        SubsequenceWithout(a', b', k);
        var w := Without(a, k);
        assert w[..|w| - 1] == Without(a', k) && w[|w| - 1] == a[|a| - 1];
      }
    } else {
      SubsequenceWithout(a, b', k);
    }
  }

  lemma SubsequenceSnoc<T>(a: seq<T>, b: seq<T>, x: T)
    requires Subsequence(a, b)
    ensures Subsequence(a + [x], b + [x])
  {
    assert (a + [x])[..|a|] == a && (b + [x])[..|b|] == b;
  }

  lemma {:induction false} SubsequencePrefix<T>(a: seq<T>, c: seq<T>, b: seq<T>)
    requires Subsequence(a + c, b)
    ensures Subsequence(a, b)
    decreases |c|
  {
    if c == [] {
      assert a + c == a;
    } else {
      SubsequenceWithout(a + c, b, |a| + |c| - 1);
      assert Without(a + c, |a| + |c| - 1) == a + c[..|c| - 1];
      SubsequencePrefix(a, c[..|c| - 1], b);
    }
  }

  lemma {:induction false} ReverseWithout<T>(s: seq<T>, k: nat)
    requires k < |s|
    ensures Reverse(Without(s, k)) == Without(Reverse(s), |s| - 1 - k)
  {
    var w := Without(s, k);
    forall j | 0 <= j < |w|
      ensures Reverse(w)[j] == Without(Reverse(s), |s| - 1 - k)[j]
    {
      ReverseAt(w, j);
      ReverseAt(s, if j < |s| - 1 - k then j else j + 1);
    }
  }

  /** Everything still to come out, oldest first, after everything that has come out. */
  function Line<T>(h: History<T>): seq<T> {
    h.outs + Reverse(h.now.items)
  }

  /** What every call keeps: the line is what went in, in order, less exactly what was dropped. */
  ghost predicate Fifo<T>(h: History<T>) {
    && h.now.Valid()
    && Subsequence(Line(h), h.ins)
    && |h.ins| == |Line(h)| + h.dropped
  }

  lemma TakeKeepsLine<T>(h: History<T>)
    requires h.now.items != []
    ensures Line(h.(now := h.now.Take(), outs := h.outs + [h.now.items[|h.now.items| - 1]])) == Line(h)
  {
    var s := h.now.items;
    var n := |s| - 1;
    assert Without(s, n) == s[..n];
    ReverseWithout(s, n);
    ReverseAt(s, 0);
    var r := Reverse(s);
    assert r == [s[n]] + Reverse(s[..n]);
  }

  lemma WithoutBehind<T>(a: seq<T>, b: seq<T>, k: nat)
    requires k < |b|
    ensures Without(a + b, |a| + k) == a + Without(b, k)
  {
    assert (a + b)[..|a| + k] == a + b[..k] && (a + b)[|a| + k + 1..] == b[k + 1..];
  }

  lemma RemovedItems<T>(s: Abs<T>) returns (k: nat)
    requires s.Valid() && s.CanRemove()
    ensures s.items == [] ==> s.RemoveCurrent() == s
    ensures s.items != [] ==>
      k < |s.items| && s.RemoveCurrent().items == Without(s.items, k) && s.RemoveCurrent().Valid()
  {
    k := if |s.items| <= 1 then 0 else s.cursor.at;
  }

  lemma RemoveKeepsFifo<T>(h: History<T>)
    requires Fifo(h) && h.now.CanRemove()
    ensures Fifo(Step(h, DoRemove))
  {
    hide Subsequence, Reverse, Without, Abs.RemoveCurrent, Abs.Valid;
    var s := h.now.items;
    var k := RemovedItems(h.now);
    if s != [] {
      ReverseWithout(s, k);
      SubsequenceWithout(Line(h), h.ins, |h.outs| + (|s| - 1 - k));
      WithoutBehind(h.outs, Reverse(s), |s| - 1 - k);
    }
  }

  lemma StepKeepsFifo<T>(h: History<T>, op: Op<T>)
    requires Fifo(h) && Enabled(h.now, op)
    ensures Fifo(Step(h, op))
  {
    hide Subsequence;
    match op
    case DoPut(x) =>
      SubsequenceSnoc(Line(h), h.ins, x);
      assert ([x] + h.now.items)[1..] == h.now.items;
      assert Line(Step(h, op)) == Line(h) + [x];
    case DoTake =>
      if h.now.items != [] {
        TakeKeepsLine(h);
      }
    case DoRemove => RemoveKeepsFifo(h);
    case DoCleanup =>
      SubsequencePrefix(h.outs, Reverse(h.now.items), h.ins);
      assert Line(Step(h, op)) == h.outs;
    case _ =>
  }

  /**
    First in, first out, over every run: what has come out followed by what is left is, in
    order, a subsequence of what went in, missing exactly the elements dropped; so with
    nothing dropped, it is what went in.
   */
  lemma {:induction false} FirstInFirstOut<T>(h: History<T>, ops: seq<Op<T>>)
    requires Fifo(h) && Runs(h, ops)
    ensures Fifo(After(h, ops))
    ensures After(h, ops).dropped == 0 ==> Line(After(h, ops)) == After(h, ops).ins
    decreases |ops|
  {
    hide Subsequence, Line;
    if ops == [] {
      SubsequenceLength(Line(h), h.ins);
    } else {
      StepKeepsFifo(h, ops[0]);
      FirstInFirstOut(Step(h, ops[0]), ops[1..]);
    }
  }

  /** What the cursor reads on its way to the end. */
  function Onward<T>(s: Abs<T>): seq<T>
    requires s.Valid() && !s.cursor.Dangling?
    decreases if s.cursor.On? then |s.items| - s.cursor.at else 0
  {
    if s.cursor.Nowhere? then [] else [s.items[s.cursor.at]] + Onward(s.Next())
  }

  /** What the cursor reads on its way back to the start. */
  function Backward<T>(s: Abs<T>): seq<T>
    requires s.Valid() && !s.cursor.Dangling?
    decreases if s.cursor.On? then s.cursor.at + 1 else 0
  {
    if s.cursor.Nowhere? then [] else [s.items[s.cursor.at]] + Backward(s.Prev())
  }

  lemma {:induction false} OnwardReads<T>(s: Abs<T>)
    requires s.Valid() && s.cursor.On?
    ensures Onward(s) == s.items[s.cursor.at..]
    decreases |s.items| - s.cursor.at
  {
    if s.cursor.at + 1 < |s.items| {
      OnwardReads(s.Next());
    }
  }

  lemma {:induction false} BackwardReads<T>(s: Abs<T>)
    requires s.Valid() && s.cursor.On?
    ensures Backward(s) == Reverse(s.items[..s.cursor.at + 1])
    decreases s.cursor.at
  {
    var t := s.items[..s.cursor.at + 1];
    if s.cursor.at > 0 {
      BackwardReads(s.Prev());
    }
    assert Without(t, s.cursor.at) == s.items[..s.cursor.at];
    ReverseWithout(t, s.cursor.at);
    ReverseAt(t, 0);
  }

  /** First-to-next reads every element once, newest first; last-to-prev reads them oldest first. */
  lemma Traversal<T>(s: Abs<T>)
    requires s.items != []
    ensures Onward(s.First()) == s.items && Backward(s.Last()) == Reverse(s.items)
  {
    OnwardReads(s.First());
    BackwardReads(s.Last());
    assert s.items[..|s.items|] == s.items;
  }

  // ----- The linked list ------------------------------------------------------------------

  class Node<T> {
    const d: T
    var next: Node?<T>
    var prev: Node?<T>

    constructor (d: T)
      ensures this.d == d && next == null && prev == null
    {
      this.d, next, prev := d, null, null;
    }
  }

  ghost function Data<T>(nodes: seq<Node<T>>): (s: seq<T>)
    ensures |s| == |nodes|
    ensures forall i :: 0 <= i < |nodes| ==> s[i] == nodes[i].d
  {
    if nodes == [] then [] else [nodes[0].d] + Data(nodes[1..])
  }

  ghost predicate Distinct<T>(nodes: seq<Node<T>>) {
    forall i, j :: 0 <= i < j < |nodes| ==> nodes[i] != nodes[j]
  }

  lemma DistinctFrom<T>(nodes: seq<Node<T>>, k: nat)
    requires Distinct(nodes) && k < |nodes|
    ensures forall i :: 0 <= i < |nodes| && i != k ==> nodes[i] != nodes[k]
  {
  }

  /** The cursor pointer is where the cursor says. */
  ghost predicate Stands<T>(current: Node?<T>, cursor: Cursor, nodes: seq<Node<T>>) {
    match cursor
    case Nowhere => current == null
    case On(k) => k < |nodes| && current == nodes[k]
    case Dangling => current != null && current !in nodes
  }

  lemma StandsMeans<T>(current: Node?<T>, cursor: Cursor, nodes: seq<Node<T>>)
    ensures Stands(current, cursor, nodes) ==> (current == null <==> cursor.Nowhere?)
    ensures Stands(current, cursor, nodes) && cursor.On? ==> cursor.at < |nodes| && current == nodes[cursor.at]
    ensures cursor.Nowhere? && current == null ==> Stands(current, cursor, nodes)
    ensures cursor.On? && cursor.at < |nodes| && current == nodes[cursor.at] ==> Stands(current, cursor, nodes)
  {
  }

  ghost function NextOf<T>(nodes: seq<Node<T>>, i: int): Node?<T>
    requires 0 <= i < |nodes|
  {
    if i + 1 < |nodes| then nodes[i + 1] else null
  }

  ghost function PrevOf<T>(nodes: seq<Node<T>>, i: int): Node?<T>
    requires 0 <= i < |nodes|
  {
    if i > 0 then nodes[i - 1] else null
  }

  /** Node `i` points to its neighbours both ways. */
  ghost predicate LinkedAt<T>(nodes: seq<Node<T>>, i: int)
    requires 0 <= i < |nodes|
    reads nodes[i]
  {
    nodes[i].next == NextOf(nodes, i) && nodes[i].prev == PrevOf(nodes, i)
  }

  ghost predicate Chained<T>(nodes: seq<Node<T>>)
    reads nodes
  {
    forall i :: 0 <= i < |nodes| ==> LinkedAt(nodes, i)
  }

  lemma Neighbours<T>(nodes: seq<Node<T>>, i: nat)
    requires i < |nodes| && LinkedAt(nodes, i)
    ensures nodes[i].next == (if i + 1 < |nodes| then nodes[i + 1] else null)
    ensures nodes[i].prev == (if i > 0 then nodes[i - 1] else null)
  {
  }

  lemma LinkedMeans<T>(nodes: seq<Node<T>>, i: nat)
    requires i < |nodes| && LinkedAt(nodes, i)
    ensures nodes[i].next == NextOf(nodes, i) && nodes[i].prev == PrevOf(nodes, i)
  {
  }

  lemma ChainFront<T>(n: Node<T>, nodes: seq<Node<T>>)
    requires n.prev == null && n.next == (if nodes == [] then null else nodes[0])
    requires nodes != [] ==> nodes[0].prev == n && nodes[0].next == NextOf(nodes, 0)
    requires forall i :: 0 < i < |nodes| ==> LinkedAt(nodes, i)
    ensures Chained([n] + nodes)
  {
    var w := [n] + nodes;
    forall i: nat | i < |w|
      ensures LinkedAt(w, i)
    {
      assert i > 1 ==> LinkedAt(nodes, i - 1);
    }
  }

  lemma ChainPrefix<T>(nodes: seq<Node<T>>)
    requires nodes != []
    requires |nodes| > 1 ==>
      nodes[|nodes| - 2].next == null && nodes[|nodes| - 2].prev == PrevOf(nodes, |nodes| - 2)
    requires forall i :: 0 <= i < |nodes| - 2 ==> LinkedAt(nodes, i)
    ensures Chained(nodes[..|nodes| - 1])
  {
    var w := nodes[..|nodes| - 1];
    forall i: nat | i < |w|
      ensures LinkedAt(w, i)
    {
      assert i < |nodes| - 2 ==> LinkedAt(nodes, i);
    }
  }

  lemma ChainWithout<T>(nodes: seq<Node<T>>, k: nat)
    requires k < |nodes|
    requires k > 0 ==> nodes[k - 1].next == NextOf(nodes, k) && nodes[k - 1].prev == PrevOf(nodes, k - 1)
    requires k + 1 < |nodes| ==> nodes[k + 1].prev == PrevOf(nodes, k) && nodes[k + 1].next == NextOf(nodes, k + 1)
    requires forall i :: 0 <= i < |nodes| && !(k - 1 <= i <= k + 1) ==> LinkedAt(nodes, i)
    ensures Chained(Without(nodes, k))
  {
    var w := Without(nodes, k);
    forall i: nat | i < |w|
      ensures LinkedAt(w, i)
    {
      var at := if i < k then i else i + 1;
      assert w[i] == nodes[at];
      assert i + 1 < |w| ==> w[i + 1] == nodes[if i + 1 < k then i + 1 else i + 2];
      assert i > 0 ==> w[i - 1] == nodes[if i - 1 < k then i - 1 else i];
      assert !(k - 1 <= at <= k + 1) ==> LinkedAt(nodes, at);
    }
  }

  lemma FrontDistinct<T>(n: Node<T>, nodes: seq<Node<T>>)
    requires Distinct(nodes) && n !in nodes
    ensures Distinct([n] + nodes)
  {
  }

  lemma FrontNode<T>(n: Node<T>, nodes: seq<Node<T>>, current: Node?<T>, cursor: Cursor)
    requires Stands(current, cursor, nodes) && n != current
    ensures Data([n] + nodes) == [n.d] + Data(nodes)
    ensures Stands(current, if cursor.On? then On(cursor.at + 1) else cursor, [n] + nodes)
  {
    assert ([n] + nodes)[1..] == nodes;
  }

  lemma {:induction false} DataPrefix<T>(nodes: seq<Node<T>>, k: nat)
    requires k <= |nodes|
    ensures Data(nodes[..k]) == Data(nodes)[..k]
  {
    if k > 0 {
      DataPrefix(nodes[1..], k - 1);
      assert nodes[1..][..k - 1] == nodes[..k][1..];
    }
  }

  lemma {:induction false} LastNode<T>(nodes: seq<Node<T>>, current: Node?<T>, cursor: Cursor)
    requires Distinct(nodes) && nodes != [] && Stands(current, cursor, nodes)
    ensures Distinct(nodes[..|nodes| - 1]) && Data(nodes[..|nodes| - 1]) == Data(nodes)[..|nodes| - 1]
    ensures Stands(current, if cursor == On(|nodes| - 1) then Dangling else cursor, nodes[..|nodes| - 1])
  {
    hide Data;
    DataPrefix(nodes, |nodes| - 1);
  }

  lemma NoNodes<T>()
    ensures Distinct<T>([]) && Data<T>([]) == [] && Chained<T>([])
  {
  }

  lemma {:induction false} DataWithout<T>(nodes: seq<Node<T>>, k: nat)
    requires k < |nodes|
    ensures Data(Without(nodes, k)) == Without(Data(nodes), k)
  {
    hide Data;
    assert |Data(Without(nodes, k))| == |Without(Data(nodes), k)|;
    forall i | 0 <= i < |nodes| - 1
      ensures Data(Without(nodes, k))[i] == Without(Data(nodes), k)[i]
    {
      assert Without(nodes, k)[i] == nodes[if i < k then i else i + 1];
    }
  }

  lemma StandsWithout<T>(nodes: seq<Node<T>>, k: nat)
    requires k < |nodes|
    ensures Stands(NextOf(nodes, k), if k + 1 < |nodes| then On(k) else Nowhere, Without(nodes, k))
  {
  }

  lemma DistinctWithout<T>(nodes: seq<Node<T>>, k: nat)
    requires Distinct(nodes) && k < |nodes|
    ensures Distinct(Without(nodes, k))
  {
    var w := Without(nodes, k);
    forall i, j | 0 <= i < j < |w|
      ensures w[i] != w[j]
    {
      assert w[i] == nodes[if i < k then i else i + 1];
      assert w[j] == nodes[if j < k then j else j + 1];
    }
  }

  /** The element at `k` is the first that compares equal to the key. */
  ghost predicate Earliest<T>(cmp: (T, T) -> int, key: T, s: seq<T>, k: nat)
    requires k < |s|
  {
    cmp(key, s[k]) == 0 && NoneEqual(cmp, key, s[..k])
  }

  ghost predicate NoneEqual<T>(cmp: (T, T) -> int, key: T, s: seq<T>) {
    forall x :: x in s ==> cmp(key, x) != 0
  }

  /** Outcome of a lookup in the index; Wild is a read far outside it. */
  datatype Lookup<T> = Refused | Found(value: T) | NotFound | Wild

  /** `a` is a sorted permutation of the data. */
  ghost predicate Indexes<T>(cmp: (T, T) -> int, a: seq<T>, data: seq<T>) {
    Sorted(cmp, a) && multiset(a) == multiset(data)
  }

  /** The result of the library's sort: the same elements, in order. */
  method Qsort<T(!new)>(cmp: (T, T) -> int, a: array<T>)
    requires IsOrder(cmp)
    modifies a
    ensures Sorted(cmp, a[..]) && multiset(a[..]) == multiset(old(a[..]))
  {
    ghost var before := a[..];
    var s := Sort(cmp, a[..]);
    SortSorts(cmp, before);
    forall i | 0 <= i < a.Length {
      a[i] := s[i];
    }
    assert a[..] == s;
  }

  class List<T(!new)> {
    var first: Node?<T>
    var last: Node?<T>
    var current: Node?<T>
    var nb_elem: nat
    var index: array?<T>
    var index_status: bool
    var index_order: Option<(T, T) -> int>

    ghost var nodes: seq<Node<T>>
    ghost var cursor: Cursor

    /** The nodes in order: distinct, counted, and linked both ways. */
    ghost predicate Linked()
      reads `first, `last, `nb_elem, `nodes, nodes
    {
      && nb_elem == |nodes|
      && Distinct(nodes)
      && first == (if nodes == [] then null else nodes[0])
      && last == (if nodes == [] then null else nodes[|nodes| - 1])
      && Chained(nodes)
    }

    ghost predicate Placed()
      reads `current, `cursor, `nodes
    {
      Stands(current, cursor, nodes)
    }

    ghost function Items(): (s: seq<T>)
      reads `nodes
    {
      Data(nodes)
    }

    ghost function Model(): Abs<T>
      reads `nodes, `cursor
    {
      Abs(Items(), cursor)
    }

    /** An index in force is a sorted permutation of the data. */
    ghost predicate Indexed()
      reads `index, `index_status, `index_order, `nodes, index
    {
      index_status && nodes != [] ==>
        && index != null && index_order.Some?
        && Indexes(index_order.value, index[..], Items())
    }

    ghost predicate Valid()
      reads this, nodes, index
    {
      Linked() && Placed() && Indexed() && Ordered()
    }

    ghost predicate Ordered()
      reads `index_order
    {
      index_order.Some? ==> IsOrder(index_order.value)
    }

    /** What validity and the model come to, so that the methods need not unfold them. */
    lemma Unfolded()
      ensures Valid() <==> Linked() && Stands(current, cursor, nodes) && Indexed() && Ordered()
      ensures Linked() <==>
        && nb_elem == |nodes| && Distinct(nodes) && Chained(nodes)
        && first == (if nodes == [] then null else nodes[0])
        && last == (if nodes == [] then null else nodes[|nodes| - 1])
      ensures Placed() <==> Stands(current, cursor, nodes)
      ensures Items() == Data(nodes) && |Items()| == |nodes| && Model() == Abs(Data(nodes), cursor)
      ensures !index_status || nodes == [] ==> Indexed()
    {
    }

    constructor ()
      ensures Valid() && Model() == Abs([], Nowhere) && !index_status && fresh(nodes)
    {
      first, last, current, nb_elem := null, null, null, 0;
      index, index_status, index_order := null, false, None;
      nodes, cursor := [], Nowhere;
    }

    /** Links a new node before the first. */
    method LinkFront(n: Node<T>)
      requires Linked() && n !in nodes && n.next == null && n.prev == null
      modifies this`first, this`last, this`nb_elem, this`nodes, nodes, n
      ensures Linked() && nodes == [n] + old(nodes)
    {
      hide Distinct, LinkedAt, Data;
      if first == null {
        first := n;
        last := n;
      } else {
        DistinctFrom(nodes, 0);
        LinkedMeans(nodes, 0);
        n.next := first;
        first.prev := n;
        first := n;
      }
      ChainFront(n, nodes);
      FrontDistinct(n, nodes);
      nb_elem := nb_elem + 1;
      nodes := [n] + nodes;
    }

    method In(data: T)
      requires Valid()
      modifies this, nodes
      ensures Valid() && Model() == old(Model()).Put(data) && !index_status
      ensures |nodes| > 0 && fresh(nodes[0]) && nodes == [nodes[0]] + old(nodes)
    {
      hide IsOrder, Indexes, Data, Distinct, Stands, Chained, Linked, Placed, Indexed, Items, Model;
      Unfolded();
      var n := new Node(data);
      FrontNode(n, nodes, current, cursor);
      LinkFront(n);
      index_status := false;
      cursor := if cursor.On? then On(cursor.at + 1) else cursor;
      Unfolded();
    }

    /** Unlinks the last node; the cursor is left on it if it was there. */
    method DropLast() returns (d: T)
      requires Linked() && Placed() && nodes != []
      modifies this`first, this`last, this`nb_elem, this`nodes, this`cursor, nodes
      ensures Linked() && Placed() && nodes == old(nodes)[..|old(nodes)| - 1]
      ensures Model() == old(Model()).Take() && d == old(Items())[|old(nodes)| - 1]
    {
      hide Distinct, Data, Stands, LinkedAt;
      LastNode(nodes, current, cursor);
      DistinctFrom(nodes, 0);
      DistinctFrom(nodes, if |nodes| > 1 then |nodes| - 2 else 0);
      Neighbours(nodes, |nodes| - 1);
      Neighbours(nodes, if |nodes| > 1 then |nodes| - 2 else 0);
      var ptr := last;
      if last == first {
        last := null;
        first := null;
      } else {
        last := last.prev;
        last.next := null;
      }
      d := ptr.d;
      nb_elem := nb_elem - 1;
      ChainPrefix(nodes);
      cursor := if cursor == On(|nodes| - 1) then Dangling else cursor;
      nodes := nodes[..|nodes| - 1];
    }

    method Out() returns (data: Option<T>)
      requires Valid()
      modifies this, nodes
      ensures Valid()
      ensures old(Items()) == [] ==> data == None && Model() == old(Model()) && index_status == old(index_status)
      ensures old(Items()) != [] ==>
        && data == Some(old(Items())[|old(Items())| - 1])
        && Model() == old(Model()).Take() && !index_status
      ensures nodes <= old(nodes)
    {
      hide IsOrder, Indexes, Data, Distinct, Stands, LinkedAt;
      if last == null {
        return None;
      }
      var d := DropLast();
      index_status := false;
      return Some(d);
    }

    method First() returns (ok: bool)
      requires Valid()
      modifies this`current, this`cursor
      ensures Valid() && Model() == old(Model()).First() && ok == (Items() != [])
    {
      hide IsOrder, Indexes, Data, Distinct, Stands, LinkedAt;
      StandsMeans(current, cursor, nodes);
      if first == null {
        return false;
      }
      current := first;
      cursor := On(0);
      StandsMeans(current, cursor, nodes);
      return true;
    }

    method Last() returns (ok: bool)
      requires Valid()
      modifies this`current, this`cursor
      ensures Valid() && Model() == old(Model()).Last() && ok == (Items() != [])
    {
      hide IsOrder, Indexes, Data, Distinct, Stands, LinkedAt;
      StandsMeans(current, cursor, nodes);
      if last == null {
        return false;
      }
      current := last;
      cursor := On(|nodes| - 1);
      StandsMeans(current, cursor, nodes);
      return true;
    }

    method Next() returns (ok: bool)
      requires Valid() && !cursor.Dangling?
      modifies this`current, this`cursor
      ensures Valid() && Model() == old(Model()).Next() && ok == cursor.On?
    {
      hide IsOrder, Indexes, Data, Distinct, Stands, LinkedAt;
      StandsMeans(current, cursor, nodes);
      if current == null {
        return false;
      }
      ghost var k := cursor.at;
      Neighbours(nodes, k);
      cursor := if k + 1 < |nodes| then On(k + 1) else Nowhere;
      if current.next == null {
        current := null;
        StandsMeans(current, cursor, nodes);
        return false;
      }
      current := current.next;
      StandsMeans(current, cursor, nodes);
      return true;
    }

    method Prev() returns (ok: bool)
      requires Valid() && !cursor.Dangling?
      modifies this`current, this`cursor
      ensures Valid() && Model() == old(Model()).Prev() && ok == cursor.On?
    {
      hide IsOrder, Indexes, Data, Distinct, Stands, LinkedAt;
      StandsMeans(current, cursor, nodes);
      if current == null {
        return false;
      }
      ghost var k := cursor.at;
      Neighbours(nodes, k);
      cursor := if k > 0 then On(k - 1) else Nowhere;
      if current.prev == null {
        current := null;
        StandsMeans(current, cursor, nodes);
        return false;
      }
      current := current.prev;
      StandsMeans(current, cursor, nodes);
      return true;
    }

    method Current() returns (data: Option<T>)
      requires Valid() && !cursor.Dangling?
      ensures data == if cursor.On? then Some(Items()[cursor.at]) else None
    {
      StandsMeans(current, cursor, nodes);
      if current == null {
        return None;
      }
      return Some(current.d);
    }

    /** Takes the node under the cursor out of the links. */
    method Unlink(ghost k: nat)
      requires Linked() && k < |nodes| && |nodes| > 1 && current == nodes[k]
      modifies this`first, this`last, this`nb_elem, this`nodes, nodes
      ensures Linked() && nodes == Without(old(nodes), k) && current.next == old(NextOf(nodes, k))
    {
      hide Distinct, LinkedAt, Data;
      DistinctFrom(nodes, k);
      DistinctFrom(nodes, if k > 0 then k - 1 else 0);
      DistinctFrom(nodes, if k + 1 < |nodes| then k + 1 else 0);
      LinkedMeans(nodes, k);
      LinkedMeans(nodes, if k > 0 then k - 1 else 0);
      LinkedMeans(nodes, if k + 1 < |nodes| then k + 1 else 0);
      var prev, next := current.prev, current.next;
      if prev != null {
        prev.next := current.next;
      }
      if next != null {
        next.prev := current.prev;
      }
      ChainWithout(nodes, k);
      DistinctWithout(nodes, k);
      if current == first {
        first := current.next;
      }
      if current == last {
        last := current.prev;
      }
      nb_elem := nb_elem - 1;
      nodes := Without(nodes, k);
    }

    method RemoveCurrent() returns (ok: bool)
      requires Valid() && Model().CanRemove()
      modifies this, nodes
      ensures Valid() && Model() == old(Model()).RemoveCurrent() && ok == (old(Items()) != [])
      ensures nodes == if |old(nodes)| <= 1 then [] else Without(old(nodes), old(cursor).at)
    {
      hide IsOrder, Indexes, Data, Distinct, Stands, Chained, Without, NextOf, Linked, Placed, Indexed, Items, Model;
      Unfolded();
      StandsMeans(current, cursor, nodes);
      NoNodes<T>();
      if nb_elem == 0 {
        return false;
      }
      if nb_elem == 1 {
        current, first, last, nb_elem := null, null, null, 0;
        nodes, cursor := [], Nowhere;
        StandsMeans(current, cursor, nodes);
        Unfolded();
        return true;
      }
      ghost var k := cursor.at;
      DataWithout(nodes, k);
      StandsWithout(nodes, k);
      Unlink(k);
      current := current.next;
      index_status := false;
      cursor := if k < |nodes| then On(k) else Nowhere;
      Unfolded();
      return true;
    }

    /** The data is released from the oldest to the newest. */
    method Cleanup() returns (released: seq<T>)
      requires Valid()
      modifies this, nodes
      ensures Valid() && Model() == old(Model()).Cleanup() && !index_status
      ensures released == Reverse(old(Items()))
    {
      hide IsOrder, Indexes, Reverse, Data, Distinct, Stands, LinkedAt;
      StandsMeans(current, cursor, nodes);
      released := [];
      ghost var all := Items();
      while nb_elem > 0
        invariant Linked() && nodes <= old(nodes)
        invariant current == old(current) && Items() == all[..|nodes|]
        invariant cursor == (if old(cursor).On? && old(cursor).at >= |nodes| then Dangling else old(cursor))
        invariant Placed()
        invariant |released| == |all| - |nodes|
        invariant forall j :: 0 <= j < |released| ==> released[j] == all[|all| - 1 - j]
        decreases nb_elem
      {
        var d := DropLast();
        released := released + [d];
      }
      index, index_order, index_status := null, None, false;
      forall j | 0 <= j < |all|
        ensures released[j] == Reverse(all)[j]
      {
        ReverseAt(all, j);
      }
    }

    /** A scan from the newest element: the first that compares equal to the key; an error only when empty. */
    method FindElem(cmp: (T, T) -> int, key: T) returns (ok: bool, data: Option<T>)
      requires Valid()
      ensures ok == (Items() != [])
      ensures data.Some? ==>
        exists k: nat :: k < |Items()| && data.value == Items()[k] && Earliest(cmp, key, Items(), k)
      ensures data.None? ==> NoneEqual(cmp, key, Items())
    {
      hide IsOrder, Indexes, Data, Distinct, Stands, LinkedAt;
      if first == null {
        return false, None;
      }
      var ptr := first;
      ghost var k: nat := 0;
      while ptr != null
        invariant k <= |nodes|
        invariant ptr == if k < |nodes| then nodes[k] else null
        invariant forall j: nat :: j < k ==> cmp(key, Items()[j]) != 0
        decreases |nodes| - k
      {
        if cmp(key, ptr.d) == 0 {
          assert ptr.d == Items()[k];
          return true, Some(ptr.d);
        }
        Neighbours(nodes, k);
        ptr := ptr.next;
        k := k + 1;
      }
      return true, None;
    }

    /** Copies the list into the index and sorts it. */
    method FillIndex(a: array<T>, cmp: (T, T) -> int)
      requires Linked() && nodes != [] && IsOrder(cmp) && a.Length == nb_elem
      modifies a
      ensures Indexes(cmp, a[..], Items())
    {
      hide IsOrder, Sorted, Data, Distinct, Stands, LinkedAt;
      var i, ptr := 0, first;
      while ptr != null
        invariant 0 <= i <= |nodes|
        invariant ptr == if i < |nodes| then nodes[i] else null
        invariant a[..i] == Items()[..i]
        decreases |nodes| - i
      {
        a[i] := ptr.d;
        Neighbours(nodes, i);
        ptr := ptr.next;
        i := i + 1;
      }
      assert a[..] == Items();
      Qsort(cmp, a);
    }

    method CreateIndex(cmp: (T, T) -> int)
      requires Valid() && IsOrder(cmp)
      modifies this
      ensures Valid() && Model() == old(Model()) && nodes == old(nodes)
      ensures index_status == (Items() != []) && index_order == Some(cmp)
    {
      hide IsOrder, Indexes, Data, Distinct, Stands, LinkedAt;
      index, index_order, index_status := null, Some(cmp), false;
      if nb_elem > 0 {
        var d := first.d;
        var a := new T[nb_elem](_ => d);
        FillIndex(a, cmp);
        index, index_status := a, true;
      }
    }

    method RecreateIndex(force: bool) returns (ok: bool)
      requires Valid()
      modifies this
      ensures Valid() && Model() == old(Model()) && nodes == old(nodes) && index_order == old(index_order)
      ensures ok <==> (old(index_status) && !force) || Items() == [] || index_order.Some?
      ensures ok && Items() != [] ==> index_status
    {
      hide IsOrder, Indexes, Data, Distinct, Stands, LinkedAt;
      if index_status && !force {
        return true;
      }
      if first == null {
        return true;
      }
      if index_order.None? {
        return false;
      }
      var d := first.d;
      var a := new T[nb_elem](_ => d);
      FillIndex(a, index_order.value);
      index, index_status := a, true;
      return true;
    }

    method RemoveIndex()
      requires Valid()
      modifies this
      ensures Valid() && Model() == old(Model()) && nodes == old(nodes)
      ensures index == null
    {
      hide IsOrder, Indexes, Data, Distinct, Stands, LinkedAt;
      if index == null {
        return;
      }
      index, index_order, index_status := null, None, false;
    }

    method GetByIndex(i: int) returns (data: Option<T>)
      requires Valid()
      ensures data.Some? <==> index != null && index_status && 0 <= i < |Items()|
      ensures data.Some? ==> i < index.Length && data.value == index[i] && data.value in Items()
    {
      if index == null || !index_status || !(0 <= i < nb_elem) {
        return None;
      }
      IndexCovers();
      assert index[i] in multiset(index[..]);
      return Some(index[i]);
    }

    lemma IndexCovers()
      requires Valid() && index_status && nodes != []
      ensures index.Length == nb_elem
      ensures forall x :: x in index[..] <==> x in Items()
    {
      hide IsOrder, Sorted, Data, Distinct, Stands, LinkedAt;
      assert |multiset(index[..])| == |multiset(Items())|;
      forall x
        ensures x in index[..] <==> x in Items()
      {
        assert x in index[..] <==> x in multiset(index[..]);
        assert x in Items() <==> x in multiset(Items());
      }
    }

    /**
      Bisection with unsigned bounds: a key below the least element makes `middle - 1` wrap,
      and the next probe is far outside the index; any other key is found exactly when some
      element compares equal to it.
     */
    method FindUsingIndex(key: T) returns (r: Lookup<T>)
      requires Valid()
      ensures r.Refused? <==> index == null || !index_status || Items() == []
      ensures r.Wild? <==> !r.Refused? && forall x :: x in Items() ==> index_order.value(key, x) < 0
      ensures r.Found? ==> r.value in Items() && index_order.value(key, r.value) == 0
      ensures r.NotFound? ==> NoneEqual(index_order.value, key, Items())
    {
      hide IsOrder, Sorted, Data, Distinct, Stands, LinkedAt;
      if index == null || !index_status || nb_elem == 0 {
        return Refused;
      }
      IndexCovers();
      var cmp := index_order.value;
      ghost var s := index[..];
      var start, end := 0, nb_elem - 1;
      while true
        invariant 0 <= start <= end < nb_elem
        invariant forall j :: 0 <= j < start ==> cmp(key, s[j]) > 0
        invariant forall j :: end < j < |s| ==> cmp(key, s[j]) < 0
        decreases end - start
      {
        var middle := (end + start) / 2;
        var c := cmp(key, index[middle]);
        if c == 0 {
          assert index[middle] in s;
          return Found(index[middle]);
        }
        if c > 0 {
          BesideMiddle(cmp, s, key, middle);
          start := middle + 1;
        } else {
          BesideMiddle(cmp, s, key, middle);
          if middle == 0 {
            assert forall x :: x in s ==> cmp(key, x) < 0;
            return Wild;
          }
          end := middle - 1;
        }
        if start > end {
          assert start > 0 ==> s[0] in s;
          assert forall x :: x in s ==> cmp(key, x) != 0;
          return NotFound;
        }
      }
    }
  }

  lemma OrderChain<T(!new)>(cmp: (T, T) -> int, a: T, b: T, c: T)
    requires IsOrder(cmp)
    ensures cmp(a, b) <= 0 && cmp(b, c) <= 0 ==> cmp(a, c) <= 0
    ensures (cmp(a, b) > 0 <==> cmp(b, a) < 0) && (cmp(b, c) > 0 <==> cmp(c, b) < 0)
      && (cmp(a, c) > 0 <==> cmp(c, a) < 0)
  {
  }

  /** A key above an element is above all before it, and one below it is below all after it. */
  lemma BesideMiddle<T(!new)>(cmp: (T, T) -> int, s: seq<T>, key: T, m: nat)
    requires IsOrder(cmp) && Sorted(cmp, s) && m < |s|
    ensures cmp(key, s[m]) > 0 ==> forall j :: 0 <= j <= m ==> cmp(key, s[j]) > 0
    ensures cmp(key, s[m]) < 0 ==> forall j :: m <= j < |s| ==> cmp(key, s[j]) < 0
  {
    forall j | 0 <= j < m
      ensures cmp(key, s[m]) > 0 ==> cmp(key, s[j]) > 0
    {
      OrderChain(cmp, key, s[j], s[m]);
    }
    forall j | m < j < |s|
      ensures cmp(key, s[m]) < 0 ==> cmp(key, s[j]) < 0
    {
      assert cmp(s[m], s[j]) <= 0;
      OrderChain(cmp, s[m], s[j], key);
    }
  }

  /** A queue holding 5, searched for 3: the search runs off the index. */
  method BelowLeastExample() returns (r: Lookup<int>)
    ensures r == Wild
  {
    var q := new List<int>();
    q.In(5);
    var cmp := (a: int, b: int) => a - b;
    q.CreateIndex(cmp);
    r := q.FindUsingIndex(3);
  }

  /** A cursor on the only element, and the element taken: the cursor points to freed memory. */
  method DanglingExample<T(!new)>(x: T) returns (q: List<T>)
    ensures q.Valid() && q.cursor == Dangling && q.current != null
  {
    q := new List<T>();
    q.In(x);
    var _ := q.First();
    var _ := q.Out();
  }
}
