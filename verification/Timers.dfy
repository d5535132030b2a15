/**
  The timers of src/datetimeServer.c: arithmetic on normalised times, and the life of a
  timer under start, stop, remove and the server's regular update.
 */
module Timers {
  import opened Wrappers

  // ----- Times ----------------------------------------------------------------------

  const ONE_SECOND_NS := 1_000_000_000

  datatype Timespec = Timespec(sec: int, nsec: int) {
    predicate Normal() {
      0 <= nsec < ONE_SECOND_NS
    }

    function Nanos(): int {
      sec * ONE_SECOND_NS + nsec
    }
  }

  /** On normalised times the sum is exact and normalised. */
  function Add(a: Timespec, b: Timespec): (t: Timespec)
    ensures a.Normal() && b.Normal() ==> t.Normal()
    ensures t.Nanos() == a.Nanos() + b.Nanos()
  {
    var t := Timespec(a.sec + b.sec, a.nsec + b.nsec);
    if t.nsec >= ONE_SECOND_NS then Timespec(t.sec + 1, t.nsec - ONE_SECOND_NS) else t
  }

  function Diff(a: Timespec, b: Timespec): (t: Timespec)
    ensures a.Normal() && b.Normal() ==> t.Normal()
    ensures t.Nanos() == a.Nanos() - b.Nanos()
  {
    var t := Timespec(a.sec - b.sec, a.nsec - b.nsec);
    if t.nsec < 0 then Timespec(t.sec - 1, t.nsec + ONE_SECOND_NS) else t
  }

  /** On normalised times the field-wise comparison is the comparison of the times. */
  function Cmp(a: Timespec, b: Timespec): (c: int)
    ensures a.Normal() && b.Normal() ==>
      (c == 1 <==> a.Nanos() > b.Nanos()) && (c == -1 <==> a.Nanos() < b.Nanos()) && (c == 0 <==> a == b)
  {
    if a.sec != b.sec then (if a.sec > b.sec then 1 else -1)
    else if a.nsec > b.nsec then 1 else if a.nsec < b.nsec then -1 else 0
  }

  datatype Unit = Min | Sec | Csec | Msec | Date

  function UnitNanos(u: Unit): int {
    match u
    case Min => 60 * ONE_SECOND_NS
    case Sec => ONE_SECOND_NS
    case Csec => 10_000_000
    case Msec => 1_000_000
    case Date => 0
  }

  /** A duration in its unit, exactly; anything not positive, or in no unit of time, is refused. */
  function Duration(duration: int, u: Unit): (d: Option<Timespec>)
    ensures d.Some? <==> duration > 0 && !u.Date?
    ensures d.Some? ==> d.value.Normal() && d.value.Nanos() == duration * UnitNanos(u)
  {
    if duration <= 0 then None else
    match u
    case Min => Some(Timespec(duration * 60, 0))
    case Sec => Some(Timespec(duration, 0))
    case Csec => Some(Timespec(duration / 100, (duration % 100) * 10_000_000))
    case Msec => Some(Timespec(duration / 1000, (duration % 1000) * 1_000_000))
    case Date => None
  }

  // ----- Timers -----------------------------------------------------------------------

  datatype Phase = Running | Stopped | Fallen

  /** `callback` says whether there is a function to call when the timer falls. */
  datatype Timer = Timer(duration: int, unit: Unit, phase: Phase, start: Timespec, end: Timespec, callback: bool)

  /** By name, in lower case as the automaton's rules give it. */
  type Table = map<string, Timer>

  datatype Op =
    | Start(name: string, duration: int, unit: Unit, callback: bool, at: Timespec)
    | Alarm(name: string, date: int, callback: bool, at: Timespec)
    | Stop(name: string)
    | Remove(name: string)
    | RemoveAll
    | Update(now: Timespec)

  /** The clock gives normalised times. */
  predicate Clocked(op: Op) {
    match op
    case Start(_, _, _, _, at) => at.Normal()
    case Alarm(_, _, _, at) => at.Normal()
    case Update(now) => now.Normal()
    case _ => true
  }

  /** Restarting a timer keeps the duration, the unit and the callback it was made with. */
  function Restarted(t: Table, name: string, made: Timer): Table {
    t[name := (if name in t then t[name] else made).(start := made.start, end := made.end, phase := Running)]
  }

  predicate Falls(t: Timer, now: Timespec) {
    t.phase.Running? && Cmp(t.end, now) == -1
  }

  function Step(t: Table, op: Op): Table {
    match op
    case Start(name, duration, unit, callback, at) =>
      (match Duration(duration, unit)
       case None => t
       case Some(d) => Restarted(t, name, Timer(duration, unit, Running, at, Add(at, d), callback)))
    case Alarm(name, date, callback, at) =>
      Restarted(t, name, Timer(0, Date, Running, at, Timespec(date, 0), callback))
    case Stop(name) => if name in t then t[name := t[name].(phase := Stopped)] else t
    case Remove(name) => t - {name}
    case RemoveAll => map[]
    case Update(now) => map n | n in t :: if Falls(t[n], now) then t[n].(phase := Fallen) else t[n]
  }

  /** Whether the update at `now` calls the timer back. */
  predicate Calls(t: Table, now: Timespec, name: string) {
    name in t && Falls(t[name], now) && t[name].callback
  }

  /** No running timer ends later. */
  predicate Latest(t: Table, name: string) {
    && name in t && t[name].phase.Running?
    && forall n :: n in t && t[n].phase.Running? ==> t[n].end.Nanos() <= t[name].end.Nanos()
  }

  /** No running timer ends earlier. */
  predicate Earliest(t: Table, name: string) {
    && name in t && t[name].phase.Running?
    && forall n :: n in t && t[n].phase.Running? ==> t[name].end.Nanos() <= t[n].end.Nanos()
  }

  class TimerTable {
    var timers: Table

    constructor ()
      ensures timers == map[]
    {
      timers := map[];
    }

    method StartTimer(name: string, duration: int, unit: Unit, callback: bool, now: Timespec) returns (ok: bool)
      modifies this
      ensures timers == Step(old(timers), Start(name, duration, unit, callback, now))
      ensures ok <==> duration > 0 && !unit.Date?
    {
      var d := Duration(duration, unit);
      if d.None? {
        return false;
      }
      if name !in timers {
        timers := timers[name := Timer(duration, unit, Running, now, now, callback)];
      }
      timers := timers[name := timers[name].(start := now, end := Add(now, d.value), phase := Running)];
      return true;
    }

    method StartAlarm(name: string, date: int, callback: bool, now: Timespec)
      modifies this
      ensures timers == Step(old(timers), Alarm(name, date, callback, now))
    {
      if name !in timers {
        timers := timers[name := Timer(0, Date, Running, now, now, callback)];
      }
      timers := timers[name := timers[name].(start := now, end := Timespec(date, 0), phase := Running)];
    }

    method StopTimer(name: string) returns (ok: bool)
      modifies this
      ensures timers == Step(old(timers), Stop(name)) && ok == (name in old(timers))
    {
      if name !in timers {
        return false;
      }
      timers := timers[name := timers[name].(phase := Stopped)];
      return true;
    }

    method RemoveTimer(name: string) returns (ok: bool)
      modifies this
      ensures timers == Step(old(timers), Remove(name)) && ok == (name in old(timers))
    {
      ok := name in timers;
      if ok {
        timers := timers - {name};
      }
    }

    method RemoveAllTimers()
      modifies this
      ensures timers == map[]
    {
      var left := timers.Keys;
      while left != {}
        invariant timers.Keys == left
        decreases left
      {
        var n :| n in left;
        timers := timers - {n};
        left := left - {n};
      }
    }

    /** Each timer whose end has passed falls, and is called back if it has a callback. */
    method UpdateStates(now: Timespec) returns (called: seq<string>)
      modifies this
      ensures timers == Step(old(timers), Update(now))
      ensures forall n :: n in called <==> Calls(old(timers), now, n)
      ensures forall i, j :: 0 <= i < j < |called| ==> called[i] != called[j]
    {
      ghost var t := timers;
      called := [];
      var left := timers.Keys;
      while left != {}
        invariant left <= t.Keys == timers.Keys
        invariant forall n :: n in t ==>
          timers[n] == if n !in left && Falls(t[n], now) then t[n].(phase := Fallen) else t[n]
        invariant forall n :: n in called <==> n !in left && Calls(t, now, n)
        invariant forall i, j :: 0 <= i < j < |called| ==> called[i] != called[j]
        decreases left
      {
        var n :| n in left;
        if timers[n].phase.Running? && Cmp(timers[n].end, now) == -1 {
          timers := timers[n := timers[n].(phase := Fallen)];
          if timers[n].callback {
            called := called + [n];
          }
        }
        left := left - {n};
      }
      assert timers == Step(t, Update(now));
    }

    /** The running timer that the server prepares its sleep for: the one with the latest end. */
    method FindNextFalling() returns (next: Option<string>)
      requires forall n :: n in timers ==> timers[n].end.Normal()
      ensures next.Some? ==> Latest(timers, next.value)
      ensures next.None? ==> forall n :: n in timers ==> !timers[n].phase.Running?
    {
      next := None;
      var left := timers.Keys;
      while left != {}
        invariant left <= timers.Keys
        invariant next.Some? ==> next.value in timers && timers[next.value].phase.Running?
        invariant forall n :: n in timers && n !in left && timers[n].phase.Running? ==>
          next.Some? && timers[n].end.Nanos() <= timers[next.value].end.Nanos()
        decreases left
      {
        var n :| n in left;
        if timers[n].phase.Running? {
          if next.None? || Cmp(timers[n].end, timers[next.value].end) == 1 {
            next := Some(n);
          }
        }
        left := left - {n};
      }
    }
  }

  /** The timer that the server finds is the next to fall exactly when all running timers end at the same instant. */
  lemma NextFallsFirstExactly(t: Table, name: string)
    requires Latest(t, name)
    ensures Earliest(t, name) <==>
      forall m, n :: m in t && n in t && t[m].phase.Running? && t[n].phase.Running? ==>
        t[m].end.Nanos() == t[n].end.Nanos()
  {
  }

  // ----- Runs -----------------------------------------------------------------------------

  function After(ops: seq<Op>): Table {
    if ops == [] then map[] else Step(After(ops[..|ops| - 1]), ops[|ops| - 1])
  }

  /** The call sets the timer going. */
  predicate Starts(op: Op, name: string) {
    (op.Start? && op.name == name && op.duration > 0 && !op.unit.Date?) || (op.Alarm? && op.name == name)
  }

  /** The call stops the timer or takes it away. */
  predicate Halts(op: Op, name: string) {
    ((op.Stop? || op.Remove?) && op.name == name) || op.RemoveAll?
  }

  /** When a started timer is due, in nanoseconds. */
  function Due(op: Op): int
    requires op.Start? || op.Alarm?
  {
    if op.Start? then op.at.Nanos() + op.duration * UnitNanos(op.unit) else op.date * ONE_SECOND_NS
  }

  /** The timer was last started at `j`, has not been halted since, and no update since then came after its end. */
  predicate GoingSince(ops: seq<Op>, name: string, j: nat) {
    && j < |ops| && Starts(ops[j], name)
    && (forall k :: j < k < |ops| ==> !Starts(ops[k], name) && !Halts(ops[k], name))
    && (forall k :: j < k < |ops| && ops[k].Update? ==> ops[k].now.Nanos() <= Due(ops[j]))
  }

  ghost predicate Going(ops: seq<Op>, name: string) {
    exists j: nat :: GoingSince(ops, name, j)
  }

  /** The callback a timer has: that of the first start since it was last removed. */
  function Callback(ops: seq<Op>, name: string): Option<bool> {
    if ops == [] then None
    else
      var before := Callback(ops[..|ops| - 1], name);
      var op := ops[|ops| - 1];
      if Starts(op, name) && before.None? then Some(op.callback)
      else if op.RemoveAll? || (op.Remove? && op.name == name) then None
      else before
  }

  lemma GoingGoesOn(ops: seq<Op>, op: Op, name: string, j: nat)
    requires !Starts(op, name)
    ensures GoingSince(ops + [op], name, j) <==>
      GoingSince(ops, name, j) && !Halts(op, name) && (op.Update? ==> op.now.Nanos() <= Due(ops[j]))
  {
    var all := ops + [op];
    if GoingSince(all, name, j) {
      assert all[|ops|] == op;
      assert j != |ops|;
      assert forall k :: 0 <= k < |ops| ==> all[k] == ops[k];
    }
  }

  lemma GoingStarts(ops: seq<Op>, op: Op, name: string, j: nat)
    requires Starts(op, name)
    ensures GoingSince(ops + [op], name, j) <==> j == |ops|
  {
    var all := ops + [op];
    assert all[|ops|] == op;
    assert GoingSince(all, name, j) ==> j >= |ops|;
  }

  lemma StepAt(t: Table, op: Op, name: string)
    requires Clocked(op) && forall n :: n in t ==> t[n].end.Normal()
    ensures forall n :: n in Step(t, op) ==> Step(t, op)[n].end.Normal()
    ensures Starts(op, name) ==>
      name in Step(t, op) && Step(t, op)[name].phase.Running? && Step(t, op)[name].end.Nanos() == Due(op)
    ensures
      var running := name in Step(t, op) && Step(t, op)[name].phase.Running?;
      !Starts(op, name) ==>
        (running <==>
          && name in t && t[name].phase.Running? && !Halts(op, name)
          && (op.Update? ==> op.now.Nanos() <= t[name].end.Nanos()))
    ensures !Starts(op, name) && name in Step(t, op) ==>
      name in t && Step(t, op)[name].end == t[name].end && Step(t, op)[name].callback == t[name].callback
  {
  }

  lemma StepCallback(t: Table, op: Op, name: string)
    ensures (name in Step(t, op)) <==>
      Starts(op, name) || (name in t && !op.RemoveAll? && !(op.Remove? && op.name == name))
    ensures name in Step(t, op) && name in t ==> Step(t, op)[name].callback == t[name].callback
    ensures name in Step(t, op) && name !in t ==> Starts(op, name) && Step(t, op)[name].callback == op.callback
  {
  }

  /**
    After any run, a timer is running exactly when it is going: last started at some call,
    not halted since, and not yet past its end at any update.
   */
  lemma {:induction false} RunningExactly(ops: seq<Op>, name: string)
    requires forall i :: 0 <= i < |ops| ==> Clocked(ops[i])
    ensures forall n :: n in After(ops) ==> After(ops)[n].end.Normal()
    ensures (name in After(ops) && After(ops)[name].phase.Running?) <==> Going(ops, name)
    ensures forall j: nat :: GoingSince(ops, name, j) ==>
      name in After(ops) && After(ops)[name].end.Nanos() == Due(ops[j])
    ensures (name in After(ops)) <==> Callback(ops, name).Some?
    ensures name in After(ops) ==> After(ops)[name].callback == Callback(ops, name).value
  {
    if ops != [] {
      hide Step, GoingSince, Starts, Halts, Due;
      var before, op := ops[..|ops| - 1], ops[|ops| - 1];
      assert ops == before + [op];
      RunningExactly(before, name);
      StepAt(After(before), op, name);
      StepCallback(After(before), op, name);
      if Starts(op, name) {
        GoingStarts(before, op, name, |before|);
        forall j: nat | GoingSince(ops, name, j)
          ensures name in After(ops) && After(ops)[name].end.Nanos() == Due(ops[j])
        {
          GoingStarts(before, op, name, j);
        }
      } else {
        GoesOnAlike(before, op, name);
      }
    }
  }

  lemma GoesOnAlike(ops: seq<Op>, op: Op, name: string)
    requires !Starts(op, name) && Clocked(op) && forall n :: n in After(ops) ==> After(ops)[n].end.Normal()
    requires (name in After(ops) && After(ops)[name].phase.Running?) <==> Going(ops, name)
    requires forall j: nat :: GoingSince(ops, name, j) ==>
      name in After(ops) && After(ops)[name].end.Nanos() == Due(ops[j])
    ensures
      var t := Step(After(ops), op);
      && ((name in t && t[name].phase.Running?) <==> Going(ops + [op], name))
      && forall j: nat :: GoingSince(ops + [op], name, j) ==> name in t && t[name].end.Nanos() == Due((ops + [op])[j])
  {
    hide Step, GoingSince, Starts, Halts, Due, After;
    StepAt(After(ops), op, name);
    forall j: nat | GoingSince(ops + [op], name, j)
      ensures j <= |ops| && ((ops + [op])[j].Start? || (ops + [op])[j].Alarm?)
    {
      GoingBound(ops + [op], name, j);
    }
    forall j: nat | GoingSince(ops + [op], name, j)
      ensures Going(ops, name) && name in Step(After(ops), op)
      ensures Step(After(ops), op)[name].phase.Running?
      ensures j < |ops| && Step(After(ops), op)[name].end.Nanos() == Due((ops + [op])[j])
    {
      GoingGoesOn(ops, op, name, j);
      GoingBound(ops, name, j);
    }
    if name in Step(After(ops), op) && Step(After(ops), op)[name].phase.Running? {
      var j: nat :| GoingSince(ops, name, j);
      GoingGoesOn(ops, op, name, j);
    }
  }

  lemma GoingBound(ops: seq<Op>, name: string, j: nat)
    requires GoingSince(ops, name, j)
    ensures j < |ops| && (ops[j].Start? || ops[j].Alarm?)
  {
  }

  /**
    When a callback runs, over every run: exactly at the first update that comes strictly
    after the last start plus its duration, with no stop, removal or restart in between, for
    a timer made with a callback.  So it runs at most once for each start.
   */
  lemma CalledExactly(ops: seq<Op>, now: Timespec, name: string)
    requires now.Normal() && forall i :: 0 <= i < |ops| ==> Clocked(ops[i])
    ensures Calls(After(ops), now, name) <==>
      && Callback(ops, name) == Some(true)
      && exists j: nat :: GoingSince(ops, name, j) && Due(ops[j]) < now.Nanos()
  {
    hide GoingSince, After, Due, Callback;
    RunningExactly(ops, name);
    forall j: nat | GoingSince(ops, name, j)
      ensures j < |ops| && (ops[j].Start? || ops[j].Alarm?)
    {
      GoingBound(ops, name, j);
    }
  }

  /** Two calls back of the same timer are separated by a start. */
  lemma OncePerStart(ops: seq<Op>, name: string, i: nat, k: nat)
    requires i < k < |ops| && ops[i].Update? && ops[k].Update?
    requires forall m :: 0 <= m < |ops| ==> Clocked(ops[m])
    requires Calls(After(ops[..i]), ops[i].now, name) && Calls(After(ops[..k]), ops[k].now, name)
    ensures exists j: nat :: i < j < k && Starts(ops[j], name)
  {
    CalledExactly(ops[..i], ops[i].now, name);
    CalledExactly(ops[..k], ops[k].now, name);
    var a: nat :| GoingSince(ops[..i], name, a) && Due(ops[..i][a]) < ops[i].now.Nanos();
    var b: nat :| GoingSince(ops[..k], name, b) && Due(ops[..k][b]) < ops[k].now.Nanos();
    hide After, Callback, GoingSince, Due;
    GoingBound(ops[..k], name, b);
    WentBefore(ops, name, i, k, b);
    GoingOnce(ops[..i], name, a, b);
  }

  lemma WentBefore(ops: seq<Op>, name: string, i: nat, k: nat, j: nat)
    requires i < k <= |ops| && GoingSince(ops[..k], name, j) && ops[i].Update?
    ensures j != i && Starts(ops[j], name)
    ensures j < i ==> GoingSince(ops[..i], name, j) && ops[i].now.Nanos() <= Due(ops[..i][j])
  {
    assert ops[..k][i] == ops[i];
    assert forall m :: 0 <= m < i ==> ops[..i][m] == ops[..k][m];
  }

  /** There is one last start. */
  lemma GoingOnce(ops: seq<Op>, name: string, a: nat, b: nat)
    ensures GoingSince(ops, name, a) && GoingSince(ops, name, b) ==> a == b
  {
  }

  /** Of two timers started together for one second and for two, the second is found, and is not the next to fall. */
  lemma LaterIsFound(at: Timespec)
    requires at.Normal()
    ensures
      var t := After([Start("a", 1, Sec, true, at), Start("b", 2, Sec, true, at)]);
      Latest(t, "b") && !Earliest(t, "b")
  {
    var first, second := Start("a", 1, Sec, true, at), Start("b", 2, Sec, true, at);
    assert [first, second][..1] == [first] && [first][..0] == [];
    assert After([]) == map[];
    assert After([first]) == Step(map[], first);
    var t := Step(Step(map[], first), second);
    assert After([first, second]) == t;
    assert t["a"].end.Nanos() == at.Nanos() + ONE_SECOND_NS;
    assert t["b"].end.Nanos() == at.Nanos() + 2 * ONE_SECOND_NS;
  }

  // ----- What each call does to a timer ---------------------------------------------------------

  /** Nothing changes but the one timer. */
  ghost predicate OnlyAt(t: Table, t1: Table, name: string) {
    forall n :: n != name ==> (n in t1 <==> n in t) && (n in t ==> t1[n] == t[n])
  }

  /** A start in a unit of time: the timer runs from now until the duration is over. */
  lemma StartDoes(t: Table, name: string, duration: int, unit: Unit, callback: bool, at: Timespec)
    requires at.Normal()
    ensures
      var t1 := Step(t, Start(name, duration, unit, callback, at));
      if duration <= 0 || unit == Date then t1 == t
      else
        && OnlyAt(t, t1, name) && name in t1
        && t1[name].phase == Running && t1[name].start == at && t1[name].end.Normal()
        && t1[name].end.Nanos() == at.Nanos() + duration *
             (match unit
              case Min => 60_000_000_000
              case Sec => 1_000_000_000
              case Csec => 10_000_000
              case _ => 1_000_000)
        && Made(t, t1, name, duration, unit, callback)
  {
  }

  /** A timer keeps what it was made with when it is started again; a new one gets what was given. */
  predicate Made(t: Table, t1: Table, name: string, duration: int, unit: Unit, callback: bool)
    requires name in t1
  {
    && t1[name].duration == (if name in t then t[name].duration else duration)
    && t1[name].unit == (if name in t then t[name].unit else unit)
    && t1[name].callback == (if name in t then t[name].callback else callback)
  }

  /** An alarm runs until its date, in seconds. */
  lemma AlarmDoes(t: Table, name: string, date: int, callback: bool, at: Timespec)
    ensures
      var t1 := Step(t, Alarm(name, date, callback, at));
      && OnlyAt(t, t1, name) && name in t1
      && t1[name].phase == Running && t1[name].start == at && t1[name].end.Nanos() == date * 1_000_000_000
      && Made(t, t1, name, 0, Date, callback)
  {
  }

  /** A stop leaves the timer stopped and otherwise as it was; a removal leaves no timer; neither touches another. */
  lemma StopDoes(t: Table, name: string)
    ensures OnlyAt(t, Step(t, Stop(name)), name) && OnlyAt(t, Step(t, Remove(name)), name)
    ensures name in Step(t, Stop(name)) <==> name in t
    ensures name in t ==>
      var was, now := t[name], Step(t, Stop(name))[name];
      now.phase == Stopped && now == was.(phase := now.phase)
    ensures name !in Step(t, Remove(name)) && Step(t, RemoveAll) == map[]
  {
  }

  /** An update: exactly the running timers whose end lies before now have fallen, and nothing else changes. */
  lemma UpdateDoes(t: Table, now: Timespec)
    requires now.Normal() && forall n :: n in t ==> t[n].end.Normal()
    ensures
      var t1 := Step(t, Update(now));
      && t1.Keys == t.Keys
      && forall n :: n in t ==>
           && t1[n] == t[n].(phase := t1[n].phase)
           && t1[n].phase == (if t[n].phase == Running && t[n].end.Nanos() < now.Nanos() then Fallen else t[n].phase)
           && (Calls(t, now, n) <==>
                 t[n].callback && t[n].phase == Running && t[n].end.Nanos() < now.Nanos())
  {
  }
}
