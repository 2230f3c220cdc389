/**
 * The mission scheduler: a stopwatch with a table of events that are executed when it passes them.
 * The milliseconds since boot are an unbounded number here; the scheduler sees them modulo 2^32.
 */
module Scheduler {
  import opened Machine

  const EVENT_END: nat := 1

  datatype Event = Event(timestamp: uint32, kind: nat, param: uint32, flags: byte)

  datatype State = State(startedAt: uint32, stoppedAt: uint32, running: bool, next: nat)

  const INITIAL := State(0, 0, false, 0)

  /** What happens to the scheduler, and when. */
  datatype Command = Start | Stop | Reset | Restart | Tick

  datatype Action = Action(time: nat, command: Command)

  /** Either there is no table, or an end marker closes it. */
  predicate WellFormed(table: seq<Event>) {
    table == [] || table[|table| - 1].kind == EVENT_END
  }

  function Elapsed(st: State, now: uint32): uint32 {
    if st.running then Wrap(now - st.startedAt) else Wrap(st.stoppedAt - st.startedAt)
  }

  /** The first event, from the given one on, that is the end marker or later than the given time. */
  function FirstBeyond(table: seq<Event>, from: nat, elapsed: int): (r: nat)
    requires from <= |table|
    ensures from <= r <= |table|
    ensures forall i :: from <= i < r ==> table[i].kind != EVENT_END && table[i].timestamp <= elapsed
    ensures r < |table| ==> table[r].kind == EVENT_END || table[r].timestamp > elapsed
    decreases |table| - from
  {
    if from == |table| || table[from].kind == EVENT_END || table[from].timestamp > elapsed then from
    else FirstBeyond(table, from + 1, elapsed)
  }

  function ResetState(st: State, now: uint32): State {
    State(if st.running then now else 0, 0, st.running, 0)
  }

  function StartedState(st: State, now: uint32): State {
    if st.running then st else State(Wrap(now - Elapsed(st, now)), 0, true, st.next)
  }

  function Step(table: seq<Event>, st: State, a: Action): (r: State)
    requires st.next <= |table|
    ensures r.next <= |table|
  {
    var now := Wrap(a.time);
    match a.command
    case Start => StartedState(st, now)
    case Stop => if st.running then st.(stoppedAt := now, running := false) else st
    case Reset => ResetState(st, now)
    case Restart => StartedState(ResetState(st, now), now)
    case Tick => if st.running then st.(next := FirstBeyond(table, st.next, Elapsed(st, now))) else st
  }

  // ----------------------------------------------------------------------------------------
  // The scheduler
  // ----------------------------------------------------------------------------------------

  class Scheduler {
    var startedAt: uint32
    var stoppedAt: uint32
    var isClockRunning: bool
    var events: array?<Event>
    var nextEventIndex: nat
    /** The events executed so far, oldest first. */
    var executed: seq<Event>

    ghost function Table(): seq<Event>
      reads this, events
    {
      if events == null then [] else events[..]
    }

    ghost predicate Valid()
      reads this, events
    {
      WellFormed(Table()) && nextEventIndex <= |Table()| && (events != null ==> nextEventIndex < events.Length)
    }

    ghost function View(): State
      reads this
    {
      State(startedAt, stoppedAt, isClockRunning, nextEventIndex)
    }

    constructor ()
      ensures Valid() && View() == INITIAL && events == null && executed == []
    {
      startedAt, stoppedAt, isClockRunning, nextEventIndex := 0, 0, false, 0;
      events, executed := null, [];
    }

    method GetElapsedTimeMsec(given: uint32, time: nat) returns (r: uint32)
      ensures r == Elapsed(View(), if given > 0 then given else Wrap(time))
    {
      if isClockRunning {
        var now := if given > 0 then given else Wrap(time);
        return Wrap(now - startedAt);
      } else {
        return Wrap(stoppedAt - startedAt);
      }
    }

    /** A new table starts from scratch; setting the same table again changes nothing. */
    method SetEvents(table: array?<Event>, time: nat)
      requires Valid() && WellFormed(if table == null then [] else table[..]) && (table != null ==> table.Length > 0)
      modifies this
      ensures Valid() && events == table && executed == old(executed)
      ensures View() == if table == old(events) then old(View()) else INITIAL
    {
      if table == events {
        return;
      }
      Stop(time);
      Reset(time);
      events := table;
    }

    method ClearEvents(time: nat)
      requires Valid()
      modifies this
      ensures Valid() && events == null && executed == old(executed)
      ensures View() == if old(events) == null then old(View()) else INITIAL
    {
      SetEvents(null, time);
    }

    method Reset(time: nat)
      requires Valid()
      modifies this
      ensures Valid() && View() == Step(old(Table()), old(View()), Action(time, Command.Reset))
      ensures events == old(events) && executed == old(executed)
    {
      startedAt := if isClockRunning then Wrap(time) else 0;
      stoppedAt, nextEventIndex := 0, 0;
    }

    method Start(time: nat)
      requires Valid()
      modifies this
      ensures Valid() && View() == Step(old(Table()), old(View()), Action(time, Command.Start))
      ensures events == old(events) && executed == old(executed)
    {
      if !isClockRunning {
        var elapsed := GetElapsedTimeMsec(0, time);
        startedAt := Wrap(Wrap(time) - elapsed);
        stoppedAt, isClockRunning := 0, true;
      }
    }

    method Stop(time: nat)
      requires Valid()
      modifies this
      ensures Valid() && View() == Step(old(Table()), old(View()), Action(time, Command.Stop))
      ensures events == old(events) && executed == old(executed)
    {
      if isClockRunning {
        stoppedAt, isClockRunning := Wrap(time), false;
      }
    }

    method Restart(time: nat)
      requires Valid()
      modifies this
      ensures Valid() && View() == Step(old(Table()), old(View()), Action(time, Command.Restart))
      ensures events == old(events) && executed == old(executed)
    {
      Reset(time);
      Start(time);
    }

    /** Executes, in order, every event that is due and was not executed since the last reset. */
    method ExecutePendingEvents(time: nat)
      requires Valid()
      modifies this
      ensures Valid() && View() == Step(old(Table()), old(View()), Action(time, Command.Tick)) && events == old(events)
      ensures executed == old(executed) + Table()[old(nextEventIndex)..nextEventIndex]
    {
      if !isClockRunning || events == null {
        return;
      }
      var elapsedTime := GetElapsedTimeMsec(0, time);
      hide Elapsed, Wrap;
      ghost var from, table := nextEventIndex, events[..];
      while true
        modifies this`nextEventIndex, this`executed
        invariant from <= nextEventIndex < events.Length
        invariant FirstBeyond(table, from, elapsedTime) == FirstBeyond(table, nextEventIndex, elapsedTime)
        invariant executed == old(executed) + table[from..nextEventIndex]
        decreases |table| - nextEventIndex
      {
        var nextEvent := events[nextEventIndex];
        if nextEvent.kind == EVENT_END || nextEvent.timestamp > elapsedTime {
          break;
        }
        executed := executed + [nextEvent];
        assert table[from..nextEventIndex] + [nextEvent] == table[from..nextEventIndex + 1];
        nextEventIndex := nextEventIndex + 1;
      }
    }
  }

  // ----------------------------------------------------------------------------------------
  // The clock over whole runs
  // ----------------------------------------------------------------------------------------

  /** Time never goes back. */
  predicate Ordered(run: seq<Action>) {
    forall i, j :: 0 <= i <= j < |run| ==> run[i].time <= run[j].time
  }

  function After(table: seq<Event>, run: seq<Action>): (st: State)
    ensures st.next <= |table|
  {
    if run == [] then INITIAL else Step(table, After(table, run[..|run| - 1]), run[|run| - 1])
  }

  predicate Running(run: seq<Action>) {
    if run == [] then false
    else
      match run[|run| - 1].command
      case Start => true
      case Restart => true
      case Stop => false
      case _ => Running(run[..|run| - 1])
  }

  predicate Clears(a: Action) {
    a.command == Reset || a.command == Restart
  }

  /** How long the clock has been running, by the end of the run, since it was last reset. */
  function RunningTime(run: seq<Action>): (t: nat)
    requires Ordered(run)
  {
    if |run| <= 1 then 0
    else
      var front, last := run[..|run| - 1], run[|run| - 1];
      if Clears(last) then 0
      else RunningTime(front) + if Running(front) then last.time - front[|front| - 1].time else 0
  }

  lemma WrapInner(a: int, b: int)
    ensures Wrap(Wrap(a) + b) == Wrap(a + b) && Wrap(b - Wrap(a)) == Wrap(b - a)
  {
    var q := a / 0x1_0000_0000;
    assert a == 0x1_0000_0000 * q + Wrap(a);
    if q >= 0 {
      WrapMultiple(Wrap(a) + b, q);
      WrapMultiple(b - a, q);
    } else {
      WrapMultiple(a + b, -q);
      WrapMultiple(b - Wrap(a), -q);
    }
  }

  lemma StartKeepsElapsed(st: State, now: uint32)
    ensures Elapsed(StartedState(st, now), now) == Elapsed(st, now)
  {
    hide Wrap;
    if !st.running {
      var e := Elapsed(st, now);
      WrapInner(now - e, now);
      assert now - (now - e) == e;
      WrapOf(e);
    }
  }

  lemma WrapOf(x: uint32)
    ensures Wrap(x) == x
  {
  }

  lemma ElapsedAdvances(st: State, before: nat, now: nat)
    requires st.running
    ensures Elapsed(st, Wrap(now)) == Wrap(Elapsed(st, Wrap(before)) + (now - before))
  {
    hide Wrap;
    WrapInner(Wrap(before) - st.startedAt, now - before);
    WrapInner(before, now - before - st.startedAt);
    WrapInner(now, 0 - st.startedAt);
    assert Wrap(before) - st.startedAt + (now - before) == Wrap(before) + (now - before - st.startedAt);
    assert before + (now - before - st.startedAt) == now + (0 - st.startedAt);
  }

  lemma StepElapsed(table: seq<Event>, st: State, a: Action, before: nat)
    requires st.next <= |table| && before <= a.time
    ensures Elapsed(Step(table, st, a), Wrap(a.time)) ==
            if Clears(a) then 0
            else if st.running then Wrap(Elapsed(st, Wrap(before)) + (a.time - before))
            else Elapsed(st, Wrap(before))
  {
    hide FirstBeyond, Wrap;
    var now := Wrap(a.time);
    StartKeepsElapsed(st, now);
    StartKeepsElapsed(ResetState(st, now), now);
    ElapsedAfterReset(st, now);
    StopKeepsElapsed(st, now);
    if st.running {
      ElapsedAdvances(st, before, a.time);
    }
  }

  lemma ElapsedAfterReset(st: State, now: uint32)
    ensures Elapsed(ResetState(st, now), now) == 0
  {
  }

  lemma StopKeepsElapsed(st: State, now: uint32)
    ensures st.running ==> Elapsed(st.(stoppedAt := now, running := false), now) == Elapsed(st, now)
  {
    hide Wrap;
  }

  /** The stopwatch shows for how long it has been running since the last reset, modulo 2^32. */
  lemma {:induction false} ClockIsFaithful(table: seq<Event>, run: seq<Action>)
    requires Ordered(run) && run != []
    ensures After(table, run).running == Running(run)
    ensures Elapsed(After(table, run), Wrap(run[|run| - 1].time)) == Wrap(RunningTime(run))
  {
    hide Elapsed, FirstBeyond, Wrap;
    var front, last := run[..|run| - 1], run[|run| - 1];
    var st := After(table, front);
    var before := if front == [] then last.time else front[|front| - 1].time;
    StepElapsed(table, st, last, before);
    WrapOf(0);
    if front == [] {
      NothingElapsed(Wrap(before));
    } else {
      ClockIsFaithful(table, front);
      WrapInner(RunningTime(front), last.time - before);
    }
  }

  lemma NothingElapsed(now: uint32)
    ensures Elapsed(INITIAL, now) == 0
  {
  }

  /** A later reading differs by the time since the last action, if the clock is running, or not at all. */
  lemma ReadingIsFaithful(table: seq<Event>, run: seq<Action>, time: nat)
    requires Ordered(run) && run != [] && run[|run| - 1].time <= time
    ensures Elapsed(After(table, run), Wrap(time)) ==
            Wrap(RunningTime(run) + if Running(run) then time - run[|run| - 1].time else 0)
  {
    hide Wrap, Running;
    ClockIsFaithful(table, run);
    if Running(run) {
      var before := run[|run| - 1].time;
      ElapsedAdvances(After(table, run), before, time);
      WrapInner(RunningTime(run), time - before);
    }
  }

  /** The clock was started or restarted by the p-th action and not stopped since. */
  predicate StartedAt(run: seq<Action>, p: nat) {
    && p < |run| && (run[p].command == Start || run[p].command == Restart)
    && forall k :: p < k < |run| ==> run[k].command != Stop
  }

  /** The clock is running if and only if it was started or restarted once and not stopped since. */
  lemma {:induction false} RunningIff(run: seq<Action>)
    ensures Running(run) <==> exists p :: StartedAt(run, p)
  {
    if run != [] {
      var front, last := run[..|run| - 1], run[|run| - 1];
      RunningIff(front);
      if last.command == Start || last.command == Restart {
        assert StartedAt(run, |run| - 1);
      } else if last.command != Stop {
        if p :| StartedAt(front, p) {
          assert StartedAt(run, p);
        }
        if p :| StartedAt(run, p) {
          assert StartedAt(front, p);
        }
      }
    }
  }

  // ----------------------------------------------------------------------------------------
  // The events over whole runs
  // ----------------------------------------------------------------------------------------

  /** The events that an action executes. */
  function ExecutedBy(table: seq<Event>, st: State, a: Action): seq<Event>
    requires st.next <= |table|
  {
    if a.command == Tick then table[st.next..Step(table, st, a).next] else []
  }

  /** The events executed since the last reset. */
  function Executed(table: seq<Event>, run: seq<Action>): seq<Event> {
    if run == [] then []
    else
      var front, last := run[..|run| - 1], run[|run| - 1];
      if Clears(last) then [] else Executed(table, front) + ExecutedBy(table, After(table, front), last)
  }

  /** The largest time that the clock showed when events were looked for since the last reset; -1 if they never were. */
  function Furthest(table: seq<Event>, run: seq<Action>): (m: int)
    ensures -1 <= m
  {
    if run == [] then -1
    else
      var front, last := run[..|run| - 1], run[|run| - 1];
      if Clears(last) then -1
      else
        var m, st := Furthest(table, front), After(table, front);
        var e := Elapsed(st, Wrap(last.time));
        if last.command == Tick && st.running && e > m then e else m
  }

  /** Looking further from where the last search stopped is the same as searching anew. */
  lemma {:induction false} SearchContinues(table: seq<Event>, from: nat, m: int, e: int)
    requires from <= |table|
    ensures FirstBeyond(table, FirstBeyond(table, from, m), e) == FirstBeyond(table, from, if e > m then e else m)
    decreases |table| - from
  {
    if from < |table| && table[from].kind != EVENT_END && table[from].timestamp <= m {
      SearchContinues(table, from + 1, m, e);
    }
  }

  /**
   * The events executed since the last reset are the table up to the first event later than any
   * time seen when events were looked for: each of them once, and in order.
   */
  lemma {:induction false} ExecutedIsPrefix(table: seq<Event>, run: seq<Action>)
    ensures After(table, run).next == FirstBeyond(table, 0, Furthest(table, run))
    ensures Executed(table, run) == table[..After(table, run).next]
  {
    hide Elapsed, Wrap, Step;
    if run == [] {
      StepExecutes(table, INITIAL, Action(0, Tick));
    } else {
      var front, last := run[..|run| - 1], run[|run| - 1];
      ExecutedIsPrefix(table, front);
      StepCursor(table, After(table, front), last);
      StepExecutes(table, After(table, front), last);
      hide FirstBeyond;
      SearchContinues(table, 0, Furthest(table, front), Elapsed(After(table, front), Wrap(last.time)));
    }
  }

  lemma StepCursor(table: seq<Event>, st: State, a: Action)
    requires st.next <= |table|
    ensures Step(table, st, a).next ==
            if Clears(a) then 0
            else if a.command == Tick && st.running then FirstBeyond(table, st.next, Elapsed(st, Wrap(a.time)))
            else st.next
  {
    hide Elapsed, Wrap, FirstBeyond;
  }

  lemma StepExecutes(table: seq<Event>, st: State, a: Action)
    requires st.next <= |table|
    ensures FirstBeyond(table, 0, -1) == 0
    ensures !Clears(a) ==> table[..st.next] + ExecutedBy(table, st, a) == table[..Step(table, st, a).next]
  {
    StepCursor(table, st, a);
    hide Elapsed, Wrap, Step;
    assert FirstBeyond(table, 0, -1) == 0;
    hide FirstBeyond;
  }

  predicate Sorted(table: seq<Event>) {
    forall i, j :: 0 <= i <= j < |table| ==> table[i].timestamp <= table[j].timestamp
  }

  /** The events of the table, up to the end marker, that are not later than the given time. */
  function Due(table: seq<Event>, elapsed: int): seq<Event> {
    if table == [] || table[0].kind == EVENT_END then []
    else (if table[0].timestamp <= elapsed then [table[0]] else []) + Due(table[1..], elapsed)
  }

  lemma {:induction false} NothingDue(table: seq<Event>, elapsed: int)
    requires Sorted(table) && table != [] && table[0].timestamp > elapsed
    ensures Due(table, elapsed) == []
  {
    if |table| > 1 {
      assert forall i :: 0 <= i < |table| - 1 ==> table[1..][i] == table[i + 1];
      NothingDue(table[1..], elapsed);
    }
  }

  lemma {:induction false} DueFrom(table: seq<Event>, from: nat, elapsed: int)
    requires from <= |table| && Sorted(table)
    ensures Due(table[from..], elapsed) == table[from..FirstBeyond(table, from, elapsed)]
    decreases |table| - from
  {
    var rest := table[from..];
    if from == |table| || table[from].kind == EVENT_END {
    } else if table[from].timestamp <= elapsed {
      DueFrom(table, from + 1, elapsed);
      assert FirstBeyond(table, from, elapsed) == FirstBeyond(table, from + 1, elapsed);
      hide FirstBeyond, Sorted;
      var end := FirstBeyond(table, from, elapsed);
      assert rest[1..] == table[from + 1..];
      assert Due(rest, elapsed) == [table[from]] + Due(rest[1..], elapsed);
      assert table[from..end] == [table[from]] + table[from + 1..end];
    } else {
      SortedFrom(table, from);
      NothingDue(rest, elapsed);
    }
  }

  lemma SortedFrom(table: seq<Event>, from: nat)
    requires from <= |table| && Sorted(table)
    ensures Sorted(table[from..])
  {
  }

  /** With a sorted table, exactly the events that have become due since the last reset were executed. */
  lemma ExecutedIsDue(table: seq<Event>, run: seq<Action>)
    requires Sorted(table)
    ensures Executed(table, run) == Due(table, Furthest(table, run))
  {
    ExecutedIsPrefix(table, run);
    DueFrom(table, 0, Furthest(table, run));
    assert table[0..] == table;
    assert table[..After(table, run).next] == table[0..After(table, run).next];
  }

  /** The longest running time at which events were looked for since the last reset; -1 if they never were. */
  function LatestLook(run: seq<Action>): int
    requires Ordered(run)
  {
    if run == [] then -1
    else
      var front, last := run[..|run| - 1], run[|run| - 1];
      if Clears(last) then -1
      else
        var m := LatestLook(front);
        if last.command == Tick && Running(front) && RunningTime(run) > m then RunningTime(run) else m
  }

  /** As long as the running time fits into 32 bits, the scheduler is not mistaken about it. */
  lemma {:induction false} FurthestIsLatest(table: seq<Event>, run: seq<Action>)
    requires Ordered(run) && forall k :: 0 <= k <= |run| ==> RunningTime(run[..k]) < 0x1_0000_0000
    ensures Furthest(table, run) == LatestLook(run)
  {
    hide Elapsed, Wrap, Step, Running;
    if run != [] {
      var front, last := run[..|run| - 1], run[|run| - 1];
      forall k | 0 <= k <= |front|
        ensures RunningTime(front[..k]) < 0x1_0000_0000
      {
        assert front[..k] == run[..k];
      }
      FurthestIsLatest(table, front);
      assert run[..|run|] == run;
      WrapSmall(RunningTime(run));
      if front == [] {
        NotRunningAtFirst(table);
      } else {
        ClockIsFaithful(table, front);
        ReadingIsFaithful(table, front, last.time);
      }
    }
  }

  lemma NotRunningAtFirst(table: seq<Event>)
    ensures !After(table, []).running && !Running([])
  {
  }

  /**
   * With a sorted table, and as long as the running time fits into 32 bits: the events executed
   * since the last reset are exactly those that the running clock had reached by some look.
   */
  lemma EventsFollowTheClock(table: seq<Event>, run: seq<Action>)
    requires Sorted(table) && Ordered(run)
    requires forall k :: 0 <= k <= |run| ==> RunningTime(run[..k]) < 0x1_0000_0000
    ensures Executed(table, run) == Due(table, LatestLook(run))
  {
    ExecutedIsDue(table, run);
    FurthestIsLatest(table, run);
  }

  /** What the clock shows at the end of a run: whether it is running, its time, and the latest look. */
  ghost predicate Shows(run: seq<Action>, running: bool, time: int, look: int) {
    && run != [] && Ordered(run) && Running(run) == running && RunningTime(run) == time && LatestLook(run) == look
    && forall k :: 0 <= k <= |run| ==> RunningTime(run[..k]) < 0x1_0000_0000
  }

  /** The running time after one more action, and whether it is a look at the clock. */
  function TimeAfter(run: seq<Action>, running: bool, time: int, a: Action): int
    requires run != []
  {
    if Clears(a) then 0 else time + if running then a.time - run[|run| - 1].time else 0
  }

  function RunsAfter(running: bool, a: Action): bool {
    a.command == Start || a.command == Restart || (a.command != Stop && running)
  }

  function LookAfter(running: bool, time: int, look: int, a: Action): int {
    if Clears(a) then -1 else if a.command == Tick && running && time > look then time else look
  }

  lemma ShowsNext(run: seq<Action>, running: bool, time: int, look: int, a: Action)
    requires Shows(run, running, time, look) && run[|run| - 1].time <= a.time
    requires TimeAfter(run, running, time, a) < 0x1_0000_0000
    ensures var time' := TimeAfter(run, running, time, a);
            Shows(run + [a], RunsAfter(running, a), time', LookAfter(running, time', look, a))
  {
    var run' := run + [a];
    assert run'[..|run|] == run && run'[|run|] == a && run'[..|run'|] == run';
    assert Ordered(run');
    hide Ordered;
    assert RunningTime(run') == TimeAfter(run, running, time, a);
    assert Running(run') == RunsAfter(running, a);
    assert LatestLook(run') == LookAfter(running, RunningTime(run'), look, a);
    hide RunningTime, Running, LatestLook;
    forall k | 0 <= k <= |run'|
      ensures RunningTime(run'[..k]) < 0x1_0000_0000
    {
      assert k <= |run| ==> run'[..k] == run[..k];
    }
  }

  lemma ShowsStart(s: nat)
    ensures Shows([Action(s, Start)], true, 0, -1)
  {
    var run := [Action(s, Start)];
    assert run[..0] == [] && run[..1] == run;
  }

  lemma ShownIsExecuted(table: seq<Event>, run: seq<Action>, running: bool, time: int, look: int)
    requires Sorted(table) && Shows(run, running, time, look)
    ensures Executed(table, run) == Due(table, look)
  {
    EventsFollowTheClock(table, run);
  }

  lemma NoneDue(table: seq<Event>)
    requires Sorted(table)
    ensures Due(table, -1) == []
  {
    if table != [] {
      NothingDue(table, -1);
    }
  }

  /**
   * An example: the clock runs from s to t and, after a pause, from u to v. The events due by then
   * have been executed, and none is while the clock is stopped.
   */
  lemma PausedRun(table: seq<Event>, s: nat, t: nat, u: nat, v: nat)
    requires Sorted(table) && s <= t <= u <= v && (t - s) + (v - u) < 0x1_0000_0000
    ensures Executed(table, [Action(s, Start), Action(t, Stop), Action(u, Tick)]) == []
    ensures Executed(table, [Action(s, Start), Action(t, Stop), Action(u, Start), Action(v, Tick)]) ==
            Due(table, (t - s) + (v - u))
  {
    hide Shows, Executed, Due;
    var r1 := [Action(s, Start)];
    var r2 := r1 + [Action(t, Stop)];
    var r3 := r2 + [Action(u, Start)];
    ShowsStart(s);
    ShowsNext(r1, true, 0, -1, Action(t, Stop));
    ShowsNext(r2, false, t - s, -1, Action(u, Tick));
    ShowsNext(r2, false, t - s, -1, Action(u, Start));
    ShowsNext(r3, true, t - s, -1, Action(v, Tick));
    ShownIsExecuted(table, r2 + [Action(u, Tick)], false, t - s, -1);
    ShownIsExecuted(table, r3 + [Action(v, Tick)], true, (t - s) + (v - u), (t - s) + (v - u));
    NoneDue(table);
    assert r2 + [Action(u, Tick)] == [Action(s, Start), Action(t, Stop), Action(u, Tick)];
    assert r3 + [Action(v, Tick)] == [Action(s, Start), Action(t, Stop), Action(u, Start), Action(v, Tick)];
  }

  /** Another one: after a reset, events are executed anew, from the time of the reset on. */
  lemma ResetRun(table: seq<Event>, s: nat, t: nat, u: nat, v: nat, command: Command)
    requires Sorted(table) && s <= t <= u <= v && u - s < 0x1_0000_0000 && v - u < 0x1_0000_0000
    requires command == Reset || command == Restart
    ensures Executed(table, [Action(s, Start), Action(t, Tick)]) == Due(table, t - s)
    ensures Executed(table, [Action(s, Start), Action(t, Tick), Action(u, command), Action(v, Tick)]) ==
            Due(table, v - u)
  {
    hide Shows, Executed, Due;
    var r1 := [Action(s, Start)];
    var r2 := r1 + [Action(t, Tick)];
    var r3 := r2 + [Action(u, command)];
    ShowsStart(s);
    ShowsNext(r1, true, 0, -1, Action(t, Tick));
    ShowsNext(r2, true, t - s, t - s, Action(u, command));
    ShowsNext(r3, true, 0, -1, Action(v, Tick));
    ShownIsExecuted(table, r2, true, t - s, t - s);
    ShownIsExecuted(table, r3 + [Action(v, Tick)], true, v - u, v - u);
    assert r2 == [Action(s, Start), Action(t, Tick)];
    assert r3 + [Action(v, Tick)] == [Action(s, Start), Action(t, Tick), Action(u, command), Action(v, Tick)];
  }

  /** The cursor never passes the end marker. */
  lemma {:induction false} CursorStaysInside(table: seq<Event>, run: seq<Action>)
    requires WellFormed(table) && table != []
    ensures After(table, run).next < |table|
    ensures forall i :: 0 <= i < After(table, run).next ==> table[i].kind != EVENT_END
  {
    ExecutedIsPrefix(table, run);
  }

  // ----------------------------------------------------------------------------------------
  // Changing the table
  // ----------------------------------------------------------------------------------------

  /** An action, or another table. */
  datatype Operation = Do(action: Action) | Install(table: seq<Event>)

  /** The table and the state after some operations; another table starts from scratch. */
  function Session(ops: seq<Operation>): (r: (seq<Event>, State))
    ensures r.1.next <= |r.0|
  {
    if ops == [] then ([], INITIAL)
    else
      var (table, st) := Session(ops[..|ops| - 1]);
      match ops[|ops| - 1]
      case Do(a) => (table, Step(table, st, a))
      case Install(other) => (other, INITIAL)
  }

  /** The actions since the table was installed. */
  function SinceInstalled(ops: seq<Operation>): seq<Action> {
    if ops == [] || ops[|ops| - 1].Install? then []
    else SinceInstalled(ops[..|ops| - 1]) + [ops[|ops| - 1].action]
  }

  /** So everything said of runs with one table holds from the last change of the table on. */
  lemma {:induction false} SessionIsRun(ops: seq<Operation>)
    ensures Session(ops).1 == After(Session(ops).0, SinceInstalled(ops))
  {
    hide Step;
    if ops != [] && ops[|ops| - 1].Do? {
      var front, a := ops[..|ops| - 1], ops[|ops| - 1].action;
      SessionIsRun(front);
      assert (SinceInstalled(front) + [a])[..|SinceInstalled(front)|] == SinceInstalled(front);
    }
  }
}
