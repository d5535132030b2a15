/**
  The hand-off of accepted sockets in src/mongoose.c (produce_socket, consume_socket):
  one master, N workers, a ring of 20 slots and two condition variables.  Each critical
  section is one step; waiting on a condition variable is a state.
 */
module SocketQueue {
  import opened Wrappers

  const SLOTS := 20

  // ----- The ring ---------------------------------------------------------------

  datatype Ring<T> = Ring(queue: seq<T>, head: int, tail: int) {
    predicate Valid() {
      && |queue| == SLOTS
      && 0 <= tail <= SLOTS
      && tail <= head <= tail + SLOTS
    }

    /** The live slots, oldest first. */
    function Contents(): (c: seq<T>)
      requires Valid()
      ensures |c| == head - tail
    {
      seq(head - tail, i requires 0 <= i < head - tail => queue[(tail + i) % SLOTS])
    }
  }

  /** Storing a socket in a ring that is not full. */
  function Put<T>(r: Ring<T>, s: T): Ring<T>
    requires r.Valid() && r.head - r.tail < SLOTS
  {
    Ring(r.queue[r.head % SLOTS := s], r.head + 1, r.tail)
  }

  /** Advancing the tail, and taking 20 off both counters while the tail is beyond 20. */
  function Take<T>(r: Ring<T>): Ring<T>
    requires r.Valid() && r.head > r.tail
  {
    if r.tail + 1 > SLOTS then Ring(r.queue, r.head - SLOTS, r.tail + 1 - SLOTS)
    else Ring(r.queue, r.head, r.tail + 1)
  }

  lemma PutContents<T>(r: Ring<T>, s: T)
    requires r.Valid() && r.head - r.tail < SLOTS
    ensures Put(r, s).Valid()
    ensures Put(r, s).Contents() == r.Contents() + [s]
  {
    forall i | 0 <= i < r.head - r.tail
      ensures Put(r, s).Contents()[i] == r.Contents()[i]
    {
      DistinctSlots(r.tail, i, r.head - r.tail);
    }
  }

  /** Fewer than 20 apart, two positions never share a slot. */
  lemma DistinctSlots(tail: nat, i: nat, j: nat)
    requires i < j < SLOTS
    ensures (tail + i) % SLOTS != (tail + j) % SLOTS
  {
  }

  lemma TakeContents<T>(r: Ring<T>)
    requires r.Valid() && r.head > r.tail
    ensures Take(r).Valid()
    ensures r.Contents()[0] == r.queue[r.tail % SLOTS]
    ensures Take(r).Contents() == r.Contents()[1..]
  {
    forall i | 0 <= i < r.head - r.tail - 1
      ensures Take(r).Contents()[i] == r.Contents()[i + 1]
    {
      assert (r.tail + 1 - SLOTS + i) % SLOTS == (r.tail + (i + 1)) % SLOTS;
    }
  }

  /** The shared fields of mg_context, updated in place inside the critical sections. */
  class Context<T> {
    const queue: array<T>
    var sq_head: int
    var sq_tail: int

    ghost predicate Valid()
      reads this, queue
    {
      Ring(queue[..], sq_head, sq_tail).Valid()
    }

    ghost function Value(): Ring<T>
      reads this, queue
    {
      Ring(queue[..], sq_head, sq_tail)
    }

    constructor (queue: array<T>)
      requires queue.Length == SLOTS
      ensures Valid() && this.queue == queue && Value() == Ring(queue[..], 0, 0)
    {
      this.queue := queue;
      sq_head, sq_tail := 0, 0;
    }

    /** produce_socket, once the ring is not full or the wait is due: false means wait. */
    method Produce(s: T) returns (stored: bool)
      requires Valid()
      modifies this, queue
      ensures Valid()
      ensures stored <==> |old(Value()).Contents()| < 20
      ensures Value() == if stored then Put(old(Value()), s) else old(Value())
    {
      PutContents'(s);
      stored := sq_head - sq_tail < queue.Length;
      if stored {
        queue[sq_head % queue.Length] := s;
        sq_head := sq_head + 1;
      }
    }

    lemma PutContents'(s: T)
      requires Valid()
      ensures Value().head - Value().tail < SLOTS ==> Put(Value(), s).Valid()
    {
      if Value().head - Value().tail < SLOTS {
        PutContents(Value(), s);
      }
    }

    /** consume_socket, once the ring is not empty or the wait is due: None means wait. */
    method Consume() returns (s: Option<T>)
      requires Valid()
      modifies this
      ensures Valid()
      ensures s.Some? == (old(Value()).Contents() != [])
      ensures s.Some? ==> s.value == old(Value()).Contents()[0]
      ensures Value() == if s.Some? then Take(old(Value())) else old(Value())
    {
      if sq_head == sq_tail {
        return None;
      }
      ghost var before := Value();
      TakeContents(before);
      s := Some(queue[sq_tail % queue.Length]);
      sq_tail := sq_tail + 1;
      while sq_tail > queue.Length
        invariant Value().queue == before.queue
        invariant sq_head - sq_tail == before.head - before.tail - 1
        invariant sq_tail == before.tail + 1 || (before.tail + 1 > SLOTS && sq_tail == before.tail + 1 - SLOTS)
        decreases sq_tail
      {
        sq_tail := sq_tail - queue.Length;
        sq_head := sq_head - queue.Length;
      }
    }
  }

  // ----- The threads --------------------------------------------------------------

  /** The master has no socket, wants to store one, or waits on sq_empty with one. */
  datatype Master<T> = Idle | Storing(socket: T) | WaitingForRoom(socket: T)

  /** A worker wants a socket, waits on sq_full, or serves one. */
  datatype Worker = Seeking | WaitingForSocket | Serving

  datatype Delivery<T> = Delivery(worker: nat, socket: T)

  datatype State<T> = State(
    ring: Ring<T>,
    master: Master<T>,
    workers: seq<Worker>,
    accepted: seq<T>,            // every socket the master ever accepted, in order
    delivered: seq<Delivery<T>>) // every socket a worker ever took, in order

  /** A signal wakes at least one of the waiting workers, if there is one (POSIX.1). */
  predicate Signalled(before: seq<Worker>, after: seq<Worker>) {
    && |after| == |before|
    && (forall w :: 0 <= w < |before| ==>
          after[w] == before[w] || (before[w].WaitingForSocket? && after[w].Seeking?))
    && ((exists w :: 0 <= w < |before| && before[w].WaitingForSocket?) ==>
          exists w :: 0 <= w < |before| && before[w].WaitingForSocket? && after[w].Seeking?)
  }

  datatype Step<T> =
    | Accept(socket: T)
    | Store(woken: seq<Worker>)
    | Consume(worker: nat)
    | Finish(worker: nat)
    | SpuriousWorker(worker: nat)
    | SpuriousMaster

  ghost predicate Enabled<T>(st: State<T>, step: Step<T>) {
    match step
    case Accept(_) => st.master.Idle?
    case Store(woken) =>
      st.master.Storing? &&
      if st.ring.head - st.ring.tail >= SLOTS then woken == st.workers else Signalled(st.workers, woken)
    case Consume(w) => w < |st.workers| && st.workers[w].Seeking?
    case Finish(w) => w < |st.workers| && st.workers[w].Serving?
    case SpuriousWorker(w) => w < |st.workers| && st.workers[w].WaitingForSocket?
    case SpuriousMaster => st.master.WaitingForRoom?
  }

  ghost function Next<T>(st: State<T>, step: Step<T>): State<T>
    requires st.ring.Valid() && Enabled(st, step)
  {
    match step
    case Accept(s) => st.(master := Storing(s), accepted := st.accepted + [s])
    case Store(woken) =>
      if st.ring.head - st.ring.tail >= SLOTS then
        st.(master := WaitingForRoom(st.master.socket))
      else
        st.(ring := Put(st.ring, st.master.socket), master := Idle, workers := woken)
    case Consume(w) =>
      if st.ring.head == st.ring.tail then
        st.(workers := st.workers[w := WaitingForSocket])
      else
        State(Take(st.ring),
              if st.master.WaitingForRoom? then Storing(st.master.socket) else st.master,
              st.workers[w := Serving],
              st.accepted,
              st.delivered + [Delivery(w, st.ring.queue[st.ring.tail % SLOTS])])
    case Finish(w) => st.(workers := st.workers[w := Seeking])
    case SpuriousWorker(w) => st.(workers := st.workers[w := Seeking])
    case SpuriousMaster => st.(master := Storing(st.master.socket))
  }

  ghost predicate Initial<T>(st: State<T>) {
    && |st.ring.queue| == SLOTS && st.ring.head == st.ring.tail == 0
    && st.master.Idle? && |st.workers| >= 1
    && (forall w :: 0 <= w < |st.workers| ==> st.workers[w].Seeking?)
    && st.accepted == [] && st.delivered == []
  }

  function Sockets<T>(d: seq<Delivery<T>>): (s: seq<T>)
    ensures |s| == |d|
  {
    seq(|d|, i requires 0 <= i < |d| => d[i].socket)
  }

  function InHand<T>(m: Master<T>): seq<T> {
    if m.Idle? then [] else [m.socket]
  }

  /** Delivered, stored and still in the master's hand: nothing lost, nothing twice, in order. */
  ghost predicate InOrder<T>(st: State<T>)
    requires st.ring.Valid()
  {
    st.accepted == Sockets(st.delivered) + st.ring.Contents() + InHand(st.master)
  }

  /** A socket in the ring finds a worker awake; a waiting master finds the ring full. */
  ghost predicate NobodyForgotten<T>(st: State<T>) {
    && (st.ring.head > st.ring.tail ==>
          exists w :: 0 <= w < |st.workers| && !st.workers[w].WaitingForSocket?)
    && (st.master.WaitingForRoom? ==> st.ring.head - st.ring.tail == SLOTS)
  }

  ghost predicate Invariant<T>(st: State<T>) {
    && st.ring.Valid() && |st.workers| >= 1
    && InOrder(st)
    && NobodyForgotten(st)
  }

  lemma StoreKeepsOrder<T>(st: State<T>, woken: seq<Worker>)
    requires Invariant(st) && Enabled(st, Store(woken))
    ensures Next(st, Store(woken)).ring.Valid() && InOrder(Next(st, Store(woken)))
  {
    if st.ring.head - st.ring.tail < SLOTS {
      PutContents(st.ring, st.master.socket);
      hide Put;
      var next := Next(st, Store(woken));
      hide Next;
      assert st.accepted == Sockets(st.delivered) + st.ring.Contents() + [st.master.socket];
      assert st.accepted == Sockets(st.delivered) + (st.ring.Contents() + [st.master.socket]) + [];
    }
  }

  lemma SocketsOfLonger<T>(d: seq<Delivery<T>>, x: Delivery<T>)
    ensures Sockets(d + [x]) == Sockets(d) + [x.socket]
  {
  }

  lemma FirstMoves<T>(a: seq<T>, b: seq<T>, c: seq<T>)
    requires b != []
    ensures a + b + c == (a + [b[0]]) + b[1..] + c
  {
    assert b == [b[0]] + b[1..];
    assert a + ([b[0]] + b[1..]) == a + [b[0]] + b[1..];
  }

  lemma ConsumeKeepsOrder<T>(st: State<T>, w: nat)
    requires Invariant(st) && Enabled(st, Step.Consume(w))
    ensures Next(st, Step.Consume(w)).ring.Valid() && InOrder(Next(st, Step.Consume(w)))
  {
    if st.ring.head > st.ring.tail {
      TakeContents(st.ring);
      var first := st.ring.Contents()[0];
      var next := Next(st, Step.Consume(w));
      assert next.ring == Take(st.ring) && next.accepted == st.accepted && InHand(next.master) == InHand(st.master);
      assert next.delivered == st.delivered + [Delivery(w, first)];
      hide Take, Next, Sockets, Ring.Contents, InHand;
      SocketsOfLonger(st.delivered, Delivery(w, first));
      FirstMoves(Sockets(st.delivered), st.ring.Contents(), InHand(st.master));
    }
  }

  lemma StepKeepsOrder<T>(st: State<T>, step: Step<T>)
    requires Invariant(st) && Enabled(st, step)
    ensures Next(st, step).ring.Valid() && InOrder(Next(st, step))
  {
    match step
    case Store(woken) => StoreKeepsOrder(st, woken);
    case Consume(w) => ConsumeKeepsOrder(st, w);
    case _ =>
  }

  lemma StepForgetsNobody<T>(st: State<T>, step: Step<T>)
    requires Invariant(st) && Enabled(st, step)
    ensures |Next(st, step).workers| == |st.workers|
    ensures NobodyForgotten(Next(st, step))
  {
    var next := Next(st, step);
    match step
    case Store(woken) =>
      if st.ring.head - st.ring.tail < SLOTS {
        assert exists w :: 0 <= w < |woken| && !woken[w].WaitingForSocket? by {
          if st.workers[0].WaitingForSocket? {
            var w :| 0 <= w < |st.workers| && st.workers[w].WaitingForSocket? && woken[w].Seeking?;
            assert !woken[w].WaitingForSocket?;
          } else {
            assert !woken[0].WaitingForSocket?;
          }
        }
      }
    case Consume(w) =>
      if st.ring.head > st.ring.tail {
        assert !next.workers[w].WaitingForSocket?;
      }
    case Finish(w) => assert !next.workers[w].WaitingForSocket?;
    case SpuriousWorker(w) => assert !next.workers[w].WaitingForSocket?;
    case _ =>
  }

  /** Any interleaving: a sequence of steps, each enabled where it is taken. */
  ghost predicate Runs<T>(st: State<T>, steps: seq<Step<T>>)
    decreases |steps|
  {
    steps == [] || (st.ring.Valid() && Enabled(st, steps[0]) && Runs(Next(st, steps[0]), steps[1..]))
  }

  ghost function After<T>(st: State<T>, steps: seq<Step<T>>): State<T>
    requires Runs(st, steps)
    decreases |steps|
  {
    if steps == [] then st else After(Next(st, steps[0]), steps[1..])
  }

  /** Order and alertness over every run, whatever the interleaving. */
  lemma {:induction false} RunsKeepInvariant<T>(st: State<T>, steps: seq<Step<T>>)
    requires Invariant(st) && Runs(st, steps)
    ensures Invariant(After(st, steps)) && |After(st, steps).workers| == |st.workers|
    decreases |steps|
  {
    hide InOrder, NobodyForgotten;
    if steps != [] {
      StepKeepsOrder(st, steps[0]);
      StepForgetsNobody(st, steps[0]);
      RunsKeepInvariant(Next(st, steps[0]), steps[1..]);
    }
  }

  lemma InitialIsFine<T>(st: State<T>)
    requires Initial(st)
    ensures Invariant(st)
  {
  }

  /**
    Over every interleaving from the start: what the workers took, in the order they took it,
    is what the master accepted, in the order it accepted it, up to the sockets still waiting.
   */
  lemma {:induction false} DeliveredInOrder<T>(st: State<T>, steps: seq<Step<T>>)
    requires Initial(st) && Runs(st, steps)
    ensures After(st, steps).ring.Valid()
    ensures
      var end := After(st, steps);
      && Sockets(end.delivered) <= end.accepted
      && |end.accepted| - |end.delivered| <= SLOTS + 1
      && end.accepted[|end.delivered|..] == end.ring.Contents() + InHand(end.master)
  {
    InitialIsFine(st);
    RunsKeepInvariant(st, steps);
    var end := After(st, steps);
    var waiting := end.ring.Contents() + InHand(end.master);
    assert end.accepted == Sockets(end.delivered) + waiting;
  }

  ghost predicate WorkersAllWait<T>(st: State<T>) {
    forall w :: 0 <= w < |st.workers| ==> st.workers[w].WaitingForSocket?
  }

  /** Over every interleaving from the start: no wake-up is lost, so not everyone ever waits. */
  lemma {:induction false} NoLostWakeUp<T>(st: State<T>, steps: seq<Step<T>>)
    requires Initial(st) && Runs(st, steps)
    ensures After(st, steps).ring.Valid()
    ensures
      var end := After(st, steps);
      && (end.ring.Contents() != [] ==> !WorkersAllWait(end))
      && (end.master.WaitingForRoom? ==> |end.ring.Contents()| == SLOTS)
      && !(end.master.WaitingForRoom? && WorkersAllWait(end))
  {
    InitialIsFine(st);
    RunsKeepInvariant(st, steps);
  }

  // ----- Enough workers awake ------------------------------------------------------------

  function Seekers(ws: seq<Worker>): nat {
    if ws == [] then 0 else Seekers(ws[..|ws| - 1]) + if ws[|ws| - 1].Seeking? then 1 else 0
  }

  lemma {:induction false} SeekersOfUpdate(ws: seq<Worker>, w: nat, x: Worker)
    requires w < |ws|
    ensures Seekers(ws[w := x]) ==
            Seekers(ws) - (if ws[w].Seeking? then 1 else 0) + if x.Seeking? then 1 else 0
    decreases |ws|
  {
    var last := |ws| - 1;
    if w < last {
      assert ws[w := x][..last] == ws[..last][w := x];
      SeekersOfUpdate(ws[..last], w, x);
    } else {
      assert ws[w := x][..last] == ws[..last];
    }
  }

  /** Workers that are woken seek; if some are, one more seeks. */
  lemma {:induction false} SeekersOfWoken(ws: seq<Worker>, woken: seq<Worker>)
    requires |ws| == |woken|
    requires forall w :: 0 <= w < |ws| ==> woken[w] == ws[w] || (ws[w].WaitingForSocket? && woken[w].Seeking?)
    ensures Seekers(woken) >= Seekers(ws)
    ensures (exists w :: 0 <= w < |ws| && ws[w].WaitingForSocket? && woken[w].Seeking?) ==> Seekers(woken) > Seekers(ws)
    decreases |ws|
  {
    if ws != [] {
      SeekersOfWoken(ws[..|ws| - 1], woken[..|ws| - 1]);
      if w :| 0 <= w < |ws| && ws[w].WaitingForSocket? && woken[w].Seeking? {
        assert w < |ws| - 1 ==> ws[..|ws| - 1][w].WaitingForSocket? && woken[..|ws| - 1][w].Seeking?;
      }
    }
  }

  /** As long as any worker sleeps, every socket in the ring has a worker of its own that is after one. */
  ghost predicate EnoughAwake<T>(st: State<T>) {
    (exists w :: 0 <= w < |st.workers| && st.workers[w].WaitingForSocket?) ==>
      st.ring.head - st.ring.tail <= Seekers(st.workers)
  }

  lemma StepKeepsAwake<T>(st: State<T>, step: Step<T>)
    requires st.ring.Valid() && Enabled(st, step) && EnoughAwake(st)
    ensures EnoughAwake(Next(st, step))
  {
    match step
    case Store(woken) =>
      if st.ring.head - st.ring.tail < SLOTS {
        SeekersOfWoken(st.workers, woken);
        assert Signalled(st.workers, woken);
      }
    case Consume(w) =>
      if st.ring.head == st.ring.tail {
        SeekersOfUpdate(st.workers, w, WaitingForSocket);
      } else {
        SeekersOfUpdate(st.workers, w, Serving);
      }
    case Finish(w) => SeekersOfUpdate(st.workers, w, Seeking);
    case SpuriousWorker(w) => SeekersOfUpdate(st.workers, w, Seeking);
    case Accept(_) =>
    case SpuriousMaster =>
  }

  lemma {:induction false} RunsKeepAwake<T>(st: State<T>, steps: seq<Step<T>>)
    requires Invariant(st) && EnoughAwake(st) && Runs(st, steps)
    ensures EnoughAwake(After(st, steps))
    decreases |steps|
  {
    hide InOrder, NobodyForgotten, EnoughAwake;
    if steps != [] {
      StepKeepsOrder(st, steps[0]);
      StepForgetsNobody(st, steps[0]);
      StepKeepsAwake(st, steps[0]);
      RunsKeepAwake(Next(st, steps[0]), steps[1..]);
    }
  }

  /**
    Over every interleaving from the start: while any worker sleeps, at least as many
    workers are on their way to the ring as there are sockets in it.
   */
  lemma {:induction false} NobodySleepsBesideWork<T>(st: State<T>, steps: seq<Step<T>>)
    requires Initial(st) && Runs(st, steps)
    ensures After(st, steps).ring.Valid()
    ensures
      var end := After(st, steps);
      (exists w :: 0 <= w < |end.workers| && end.workers[w].WaitingForSocket?) ==>
        |end.ring.Contents()| <= Seekers(end.workers)
  {
    InitialIsFine(st);
    RunsKeepInvariant(st, steps);
    RunsKeepAwake(st, steps);
  }

  lemma OneStepMore<T>(st: State<T>, step: Step<T>, rest: seq<Step<T>>)
    requires st.ring.Valid() && Enabled(st, step) && Runs(Next(st, step), rest)
    ensures Runs(st, [step] + rest) && After(st, [step] + rest) == After(Next(st, step), rest)
  {
    assert ([step] + rest)[1..] == rest;
  }

  /** The thread that can move the oldest waiting socket on, and what it does. */
  lemma SomeoneCanMove<T>(st: State<T>) returns (step: Step<T>)
    requires Invariant(st) && st.ring.Contents() + InHand(st.master) != []
    ensures Enabled(st, step) && !step.Accept?
    ensures Distance(Next(st, step)) < Distance(st)
  {
    if st.ring.head > st.ring.tail {
      var w :| 0 <= w < |st.workers| && !st.workers[w].WaitingForSocket?;
      if st.workers[w].Serving? {
        step := Finish(w);
        ServingOfUpdate(st.workers, w, Seeking);
      } else {
        step := Step.Consume(w);
        ServingOfUpdate(st.workers, w, Serving);
      }
    } else {
      var woken := seq(|st.workers|, w requires 0 <= w < |st.workers| =>
                         if st.workers[w].WaitingForSocket? then Seeking else st.workers[w]);
      step := Store(woken);
      assert Signalled(st.workers, woken) by {
        if w :| 0 <= w < |st.workers| && st.workers[w].WaitingForSocket? {
          assert woken[w].Seeking?;
        }
      }
      ServingOfWoken(st.workers, woken);
    }
  }

  function Servings(ws: seq<Worker>): nat {
    if ws == [] then 0 else Servings(ws[..|ws| - 1]) + if ws[|ws| - 1].Serving? then 1 else 0
  }

  /** Sockets on their way count twice in the ring, three times in the master's hand; busy workers once. */
  ghost function Distance<T>(st: State<T>): int {
    2 * (st.ring.head - st.ring.tail) + 3 * |InHand(st.master)| + Servings(st.workers)
  }

  lemma {:induction false} ServingOfUpdate(ws: seq<Worker>, w: nat, x: Worker)
    requires w < |ws|
    ensures Servings(ws[w := x]) ==
            Servings(ws) - (if ws[w].Serving? then 1 else 0) + if x.Serving? then 1 else 0
    decreases |ws|
  {
    var last := |ws| - 1;
    if w < last {
      assert ws[w := x][..last] == ws[..last][w := x];
      ServingOfUpdate(ws[..last], w, x);
    } else {
      assert ws[w := x][..last] == ws[..last];
    }
  }

  lemma {:induction false} ServingOfWoken(ws: seq<Worker>, woken: seq<Worker>)
    requires |ws| == |woken|
    requires forall w :: 0 <= w < |ws| ==> ws[w].Serving? == woken[w].Serving?
    ensures Servings(ws) == Servings(woken)
    decreases |ws|
  {
    if ws != [] {
      ServingOfWoken(ws[..|ws| - 1], woken[..|ws| - 1]);
    }
  }

  /** From every reachable state the threads alone, with no new socket, can deliver all that waits. */
  lemma {:induction false} AllCanBeDelivered<T>(st: State<T>) returns (steps: seq<Step<T>>)
    requires Invariant(st)
    ensures Runs(st, steps)
    ensures Sockets(After(st, steps).delivered) == After(st, steps).accepted == st.accepted
    decreases Distance(st)
  {
    if st.ring.Contents() + InHand(st.master) == [] {
      steps := [];
      assert st.accepted == Sockets(st.delivered) + (st.ring.Contents() + InHand(st.master));
    } else {
      var step := SomeoneCanMove(st);
      StepKeepsOrder(st, step);
      StepForgetsNobody(st, step);
      var rest := AllCanBeDelivered(Next(st, step));
      OneStepMore(st, step, rest);
      steps := [step] + rest;
    }
  }
}
