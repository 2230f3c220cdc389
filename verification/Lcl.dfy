/**
 * Automatic resets of the latching current limiters (LCLs) after liftoff. The milliseconds since
 * boot are an unbounded number here; the module only sees them modulo 2^32.
 */
module Lcl {
  import opened Machine

  const NUM_LCLS: nat := 6
  const DELAY_AFTER_AUTO_RESET: nat := 3000
  const DELAY_BEFORE_AUTO_RESET: nat := 3000
  const RECOVERY_PERIOD: nat := 10000
  const MAX_RESET_COUNT: nat := 10

  datatype AutoResetState = Disabled | Off | On | TriedRecently | Waiting | GivenUp

  datatype AutoReset = AutoReset(
    state: AutoResetState, lastTriggerAt: uint32, lastResetAt: uint32, resetCounter: byte)

  /** What one LCL depends on: when the liftoff started, by the clock, and its own record. */
  datatype Channel = Channel(liftoffAt: uint32, record: AutoReset)

  /** What one call sees of one LCL. */
  datatype Sample = Sample(time: nat, lo: bool, triggered: bool, bootedAfterLiftoff: bool)

  const CLEARED := AutoReset(Disabled, 0, 0, 0)
  const GROUNDED := Channel(0, CLEARED)

  /** Milliseconds between two clock readings, as 32-bit subtraction sees them. */
  function Elapsed(now: uint32, since: uint32): uint32 {
    Wrap(now - since)
  }

  /** The record when a liftoff is noticed. */
  function AtLiftoff(s: Sample): AutoReset {
    AutoReset(if s.triggered && !s.bootedAfterLiftoff then Off else On, 0, 0, 0)
  }

  /** Effect of one call during a liftoff; the flag tells whether the LCL is reset. */
  function Track(r: AutoReset, triggered: bool, now: uint32): (AutoReset, bool) {
    match r.state
    case On =>
      if triggered then
        if r.resetCounter >= MAX_RESET_COUNT then (r.(state := GivenUp, resetCounter := 0), false)
        else (r.(state := Waiting, lastTriggerAt := now), false)
      else if r.lastResetAt > 0 && Elapsed(now, r.lastResetAt) >= RECOVERY_PERIOD then
        (AutoReset(On, 0, 0, 0), false)
      else (r, false)
    case Waiting =>
      if !triggered then (r.(state := On), false)
      else if Elapsed(now, r.lastTriggerAt) >= DELAY_BEFORE_AUTO_RESET then
        (r.(state := TriedRecently, lastResetAt := now, resetCounter := (r.resetCounter + 1) % 0x100), true)
      else (r, false)
    case TriedRecently =>
      (if Elapsed(now, r.lastResetAt) >= DELAY_AFTER_AUTO_RESET then r.(state := On) else r, false)
    case _ => (r, false)
  }

  /** Effect of any call. */
  function Step(c: Channel, s: Sample): (Channel, bool) {
    if !s.lo then
      (if c.liftoffAt != 0 then GROUNDED else c, false)
    else if c.liftoffAt == 0 then
      (Channel(Wrap(s.time), AtLiftoff(s)), false)
    else
      var (r, fired) := Track(c.record, s.triggered, Wrap(s.time));
      (c.(record := r), fired)
  }

  // ----------------------------------------------------------------------------------------
  // The module
  // ----------------------------------------------------------------------------------------

  class Module {
    var lastLiftoffStartedAt: uint32
    const autoReset: array<AutoReset>

    ghost predicate Valid() {
      autoReset.Length == NUM_LCLS
    }

    ghost function View(i: nat): Channel
      reads this, autoReset
      requires Valid() && i < NUM_LCLS
    {
      Channel(lastLiftoffStartedAt, autoReset[i])
    }

    constructor ()
      ensures Valid() && fresh(autoReset) && forall i :: 0 <= i < NUM_LCLS ==> View(i) == GROUNDED
    {
      autoReset := new AutoReset[NUM_LCLS](_ => CLEARED);
      lastLiftoffStartedAt := 0;
    }

    /** One call; returns the LCLs that it resets, in order. */
    method UpdateAutoResetLogic(lo: bool, time: nat, pins: seq<bool>, bootedAfterLiftoff: bool)
      returns (fired: seq<nat>)
      requires Valid() && |pins| == NUM_LCLS
      modifies this, autoReset
      ensures Valid()
      ensures forall i :: 0 <= i < NUM_LCLS ==>
                View(i) == Step(old(View(i)), Sample(time, lo, pins[i], bootedAfterLiftoff)).0
      ensures forall i :: i in fired <==>
                0 <= i < NUM_LCLS && Step(old(View(i)), Sample(time, lo, pins[i], bootedAfterLiftoff)).1
      ensures forall i, j :: 0 <= i < j < |fired| ==> fired[i] < fired[j]
    {
      fired := [];
      if lo {
        fired := UpdateAfterTakeoff(Wrap(time), pins, bootedAfterLiftoff);
      } else {
        UpdateBeforeTakeoff();
      }
    }

    method UpdateBeforeTakeoff()
      requires Valid()
      modifies this, autoReset
      ensures forall i :: 0 <= i < NUM_LCLS ==>
                View(i) == if old(lastLiftoffStartedAt) != 0 then GROUNDED else old(View(i))
    {
      if lastLiftoffStartedAt != 0 {
        Clear();
      }
    }

    method Clear()
      requires Valid()
      modifies this, autoReset
      ensures forall i :: 0 <= i < NUM_LCLS ==> View(i) == GROUNDED
    {
      lastLiftoffStartedAt := 0;
      for i := 0 to NUM_LCLS
        invariant forall j :: 0 <= j < i ==> autoReset[j] == CLEARED
        invariant lastLiftoffStartedAt == 0
      {
        autoReset[i] := CLEARED;
      }
    }

    method UpdateAfterTakeoff(now: uint32, pins: seq<bool>, bootedAfterLiftoff: bool) returns (fired: seq<nat>)
      requires Valid() && |pins| == NUM_LCLS
      modifies this, autoReset
      ensures forall i :: 0 <= i < NUM_LCLS ==>
                View(i) ==
                if old(lastLiftoffStartedAt) == 0 then
                  Channel(now, AtLiftoff(Sample(now, true, pins[i], bootedAfterLiftoff)))
                else Channel(old(lastLiftoffStartedAt), Track(old(autoReset[i]), pins[i], now).0)
      ensures forall i :: i in fired <==>
                0 <= i < NUM_LCLS && old(lastLiftoffStartedAt) != 0 && Track(old(autoReset[i]), pins[i], now).1
      ensures forall i, j :: 0 <= i < j < |fired| ==> fired[i] < fired[j]
    {
      fired := [];
      if lastLiftoffStartedAt == 0 {
        lastLiftoffStartedAt := now;
        for i := 0 to NUM_LCLS
          invariant lastLiftoffStartedAt == now
          invariant forall j :: 0 <= j < i ==> autoReset[j] == AtLiftoff(Sample(now, true, pins[j], bootedAfterLiftoff))
        {
          autoReset[i] := AutoReset(if pins[i] && !bootedAfterLiftoff then Off else On, 0, 0, 0);
        }
      } else {
        for i := 0 to NUM_LCLS
          invariant lastLiftoffStartedAt == old(lastLiftoffStartedAt)
          invariant forall j :: 0 <= j < i ==> autoReset[j] == Track(old(autoReset[j]), pins[j], now).0
          invariant forall j :: i <= j < NUM_LCLS ==> autoReset[j] == old(autoReset[j])
          invariant forall j :: j in fired <==> 0 <= j < i && Track(old(autoReset[j]), pins[j], now).1
          invariant forall j, k :: 0 <= j < k < |fired| ==> fired[j] < fired[k]
        {
          var reset := UpdateChannel(i, pins[i], now);
          if reset {
            assert forall k :: 0 <= k < |fired| ==> fired[k] in fired;
            fired := fired + [i];
          }
        }
      }
    }

    /** The switch over the states of one LCL. */
    method UpdateChannel(i: nat, triggered: bool, now: uint32) returns (reset: bool)
      requires Valid() && i < NUM_LCLS
      modifies autoReset
      ensures autoReset[i] == Track(old(autoReset[i]), triggered, now).0
      ensures forall j :: 0 <= j < NUM_LCLS && j != i ==> autoReset[j] == old(autoReset[j])
      ensures reset == Track(old(autoReset[i]), triggered, now).1
    {
      var r := autoReset[i];
      reset := false;
      match r.state {
        case On =>
          if triggered {
            if r.resetCounter >= MAX_RESET_COUNT {
              autoReset[i] := r.(state := GivenUp, resetCounter := 0);
            } else {
              autoReset[i] := r.(lastTriggerAt := now, state := Waiting);
            }
          } else if r.lastResetAt > 0 && Elapsed(now, r.lastResetAt) >= RECOVERY_PERIOD {
            autoReset[i] := r.(resetCounter := 0, lastResetAt := 0, lastTriggerAt := 0);
          }
        case Waiting =>
          if !triggered {
            autoReset[i] := r.(state := On);
          } else if Elapsed(now, r.lastTriggerAt) >= DELAY_BEFORE_AUTO_RESET {
            reset := true;
            autoReset[i] :=
              r.(lastResetAt := now, state := TriedRecently, resetCounter := (r.resetCounter + 1) % 0x100);
          }
        case TriedRecently =>
          if Elapsed(now, r.lastResetAt) >= DELAY_AFTER_AUTO_RESET {
            autoReset[i] := r.(state := On);
          }
        case _ =>
      }
    }
  }

  // ----------------------------------------------------------------------------------------
  // Runs
  // ----------------------------------------------------------------------------------------

  /** Time never goes back. */
  predicate Ordered(run: seq<Sample>) {
    forall i, j :: 0 <= i <= j < |run| ==> run[i].time <= run[j].time
  }

  /** The state of an LCL before the j-th call, counted from initialization. */
  function At(run: seq<Sample>, j: nat): Channel
    requires j <= |run|
  {
    if j == 0 then GROUNDED else Step(At(run, j - 1), run[j - 1]).0
  }

  predicate ResetAt(run: seq<Sample>, k: nat)
    requires k < |run|
  {
    Step(At(run, k), run[k]).1
  }

  /** The LO signal is on in the calls from a up to b, exclusive. */
  predicate InFlight(run: seq<Sample>, a: nat, b: nat)
    requires b <= |run|
  {
    forall k :: a <= k < b ==> run[k].lo
  }

  /** What the clock makes of an interval is never longer than the interval. */
  lemma ElapsedIsShorter(since: nat, now: nat)
    requires since <= now
    ensures Elapsed(Wrap(now), Wrap(since)) == Wrap(now - since) <= now - since
  {
    var m := 0x1_0000_0000;
    assert now == m * (now / m) + Wrap(now) && since == m * (since / m) + Wrap(since);
    var k := now / m - since / m;
    assert now - since == Wrap(now) - Wrap(since) + m * k;
    assert k >= 0;
    WrapMultiple(Wrap(now) - Wrap(since), k);
  }

  /** How far an LCL has got since it was reset in call a. */
  ghost predicate Since(run: seq<Sample>, a: nat, j: nat)
    requires a < j <= |run|
  {
    var (c, t0, t) := (At(run, j), run[a].time, run[j - 1].time);
    && c.liftoffAt != 0
    && match c.record.state
       case TriedRecently => exists t' :: t0 <= t' <= t && c.record.lastResetAt == Wrap(t')
       case On => t0 + DELAY_AFTER_AUTO_RESET <= t
       case Waiting => exists t' :: t0 + DELAY_AFTER_AUTO_RESET <= t' <= t && c.record.lastTriggerAt == Wrap(t')
       case Disabled => false
       case _ => true
  }

  lemma {:induction false} SinceReset(run: seq<Sample>, a: nat, j: nat)
    requires Ordered(run) && a < j <= |run| && InFlight(run, a, j) && ResetAt(run, a)
    ensures Since(run, a, j)
  {
    hide At;
    AtStep(run, j - 1);
    if j - 1 > a {
      SinceReset(run, a, j - 1);
      SinceStep(run, a, j - 1);
    }
  }

  lemma AtStep(run: seq<Sample>, j: nat)
    requires j < |run|
    ensures At(run, j + 1) == Step(At(run, j), run[j]).0
  {
  }

  lemma SinceStep(run: seq<Sample>, a: nat, j: nat)
    requires a < j < |run| && run[j].lo && Since(run, a, j)
    requires run[a].time <= run[j - 1].time <= run[j].time
    ensures Since(run, a, j + 1)
    ensures ResetAt(run, j) ==> run[j].time >= run[a].time + DELAY_AFTER_AUTO_RESET + DELAY_BEFORE_AUTO_RESET
  {
    AtStep(run, j);
    hide At;
    var c, now := At(run, j), run[j].time;
    if c.record.state.TriedRecently? {
      var t' :| run[a].time <= t' <= run[j - 1].time && c.record.lastResetAt == Wrap(t');
      ElapsedIsShorter(t', now);
    } else if c.record.state.Waiting? {
      var t' :| run[a].time + DELAY_AFTER_AUTO_RESET <= t' <= run[j - 1].time && c.record.lastTriggerAt == Wrap(t');
      ElapsedIsShorter(t', now);
    }
  }

  /** Two automatic resets in the same flight are at least six seconds apart, whatever the clock does. */
  lemma ResetsAreSpaced(run: seq<Sample>, a: nat, b: nat)
    requires Ordered(run) && a < b < |run| && InFlight(run, a, b + 1) && ResetAt(run, a) && ResetAt(run, b)
    ensures run[b].time >= run[a].time + 6000
  {
    SinceReset(run, a, b);
    SinceStep(run, a, b);
  }

  /**
   * Every flight starts afresh, whatever happened before: an LCL is off if it is triggered then,
   * unless the computer was booted after liftoff, and on with a cleared counter otherwise.
   */
  lemma FlightStartsAfresh(run: seq<Sample>, m: nat)
    requires m < |run| && run[m].lo && (m == 0 || !run[m - 1].lo)
    ensures var off := run[m].triggered && !run[m].bootedAfterLiftoff;
            At(run, m + 1) == Channel(Wrap(run[m].time), AutoReset(if off then Off else On, 0, 0, 0))
    ensures !ResetAt(run, m)
  {
    AtStep(run, m);
    if m > 0 {
      AtStep(run, m - 1);
    }
  }

  // ----------------------------------------------------------------------------------------
  // Why an LCL is reset
  // ----------------------------------------------------------------------------------------

  /** The LCL was seen triggered, in flight, in all calls from w up to j, exclusive. */
  predicate TriggeredSince(run: seq<Sample>, w: nat, j: nat)
    requires j <= |run|
  {
    w < j && forall k :: w <= k < j ==> run[k].triggered && run[k].lo
  }

  lemma {:induction false} WaitingSince(run: seq<Sample>, j: nat) returns (w: nat)
    requires j <= |run| && At(run, j).record.state == Waiting
    ensures TriggeredSince(run, w, j) && At(run, j).record.lastTriggerAt == Wrap(run[w].time)
  {
    var before := At(run, j - 1);
    if before.record.state == Waiting {
      w := WaitingSince(run, j - 1);
    } else {
      w := j - 1;
    }
  }

  /** An LCL is reset only when it was triggered at every call of the last three seconds. */
  lemma ResetNeedsTrigger(run: seq<Sample>, b: nat) returns (w: nat)
    requires Ordered(run) && b < |run| && ResetAt(run, b)
    ensures TriggeredSince(run, w, b + 1) && run[b].time >= run[w].time + 3000
  {
    w := WaitingSince(run, b);
    ElapsedIsShorter(run[w].time, run[b].time);
  }

  // ----------------------------------------------------------------------------------------
  // How often
  // ----------------------------------------------------------------------------------------

  /** The number of resets in the calls from a up to b, exclusive. */
  function Resets(run: seq<Sample>, a: nat, b: nat): nat
    requires a <= b <= |run|
  {
    if a == b then 0 else Resets(run, a, b - 1) + if ResetAt(run, b - 1) then 1 else 0
  }

  /** The call clears the reset counter. */
  predicate ClearsAt(run: seq<Sample>, k: nat)
    requires k < |run|
  {
    At(run, k).record.resetCounter > 0 && At(run, k + 1).record.resetCounter == 0
  }

  lemma {:induction false} CounterIsBounded(run: seq<Sample>, j: nat)
    requires j <= |run|
    ensures var r := At(run, j).record;
            r.resetCounter <= MAX_RESET_COUNT && (r.state == Waiting ==> r.resetCounter < MAX_RESET_COUNT)
  {
    if j > 0 {
      AtStep(run, j - 1);
      hide At;
      CounterIsBounded(run, j - 1);
      StepIsBounded(At(run, j - 1), run[j - 1]);
    } else {
      assert At(run, 0) == GROUNDED;
    }
  }

  lemma StepIsBounded(c: Channel, s: Sample)
    requires c.record.resetCounter <= MAX_RESET_COUNT
    requires c.record.state == Waiting ==> c.record.resetCounter < MAX_RESET_COUNT
    ensures var r := Step(c, s).0.record;
            r.resetCounter <= MAX_RESET_COUNT && (r.state == Waiting ==> r.resetCounter < MAX_RESET_COUNT)
  {
    hide Wrap, Elapsed;
  }

  lemma {:induction false} CounterCounts(run: seq<Sample>, a: nat, b: nat)
    requires a <= b <= |run| && forall k :: a <= k < b ==> !ClearsAt(run, k)
    ensures At(run, b).record.resetCounter == At(run, a).record.resetCounter + Resets(run, a, b)
  {
    hide At, Track;
    if a < b {
      CounterCounts(run, a, b - 1);
      CounterStep(run, b - 1);
    }
  }

  lemma CounterStep(run: seq<Sample>, k: nat)
    requires k < |run| && !ClearsAt(run, k)
    ensures At(run, k + 1).record.resetCounter == At(run, k).record.resetCounter + if ResetAt(run, k) then 1 else 0
  {
    CounterIsBounded(run, k);
    AtStep(run, k);
    hide At;
  }

  /** Unless the counter is cleared meanwhile, an LCL is reset at most ten times. */
  lemma AtMostTenResets(run: seq<Sample>, a: nat, b: nat)
    requires a <= b <= |run| && forall k :: a <= k < b ==> !ClearsAt(run, k)
    ensures Resets(run, a, b) <= 10
  {
    CounterCounts(run, a, b);
    CounterIsBounded(run, b);
  }

  /** The latest reset is on record. */
  lemma {:induction false} LastResetIsOnRecord(run: seq<Sample>, j: nat) returns (s: nat)
    requires j <= |run| && At(run, j).record.lastResetAt > 0
    ensures s < j && ResetAt(run, s) && At(run, j).record.lastResetAt == Wrap(run[s].time)
  {
    AtStep(run, j - 1);
    StepRecords(At(run, j - 1), run[j - 1]);
    assert ResetAt(run, j - 1) == Step(At(run, j - 1), run[j - 1]).1;
    hide At, Step, ResetAt;
    if ResetAt(run, j - 1) {
      s := j - 1;
    } else {
      s := LastResetIsOnRecord(run, j - 1);
    }
  }

  lemma StepRecords(c: Channel, s: Sample)
    ensures var (c', fired) := Step(c, s);
            if fired then c'.record.lastResetAt == Wrap(s.time)
            else c'.record.lastResetAt == 0 || c'.record.lastResetAt == c.record.lastResetAt
  {
    hide Wrap;
  }

  /** Nothing happens to an LCL that is off or given up as long as the flight lasts. */
  lemma {:induction false} OffOrGivenUpStays(run: seq<Sample>, j: nat, b: nat)
    requires j <= b <= |run| && InFlight(run, j, b) && At(run, j).liftoffAt != 0
    requires At(run, j).record.state in {Off, GivenUp}
    ensures At(run, b) == At(run, j) && Resets(run, j, b) == 0
  {
    hide At;
    if j < b {
      OffOrGivenUpStays(run, j, b - 1);
      AtStep(run, b - 1);
    }
  }

  lemma {:induction false} ResetsSplit(run: seq<Sample>, a: nat, b: nat, c: nat)
    requires a <= b <= c <= |run|
    ensures Resets(run, a, c) == Resets(run, a, b) + Resets(run, b, c)
  {
    hide ResetAt;
    if b < c {
      ResetsSplit(run, a, b, c - 1);
    }
  }

  lemma {:induction false} FirstClear(run: seq<Sample>, a: nat, b: nat) returns (k: nat)
    requires a <= b <= |run|
    ensures a <= k <= b && (k < b ==> ClearsAt(run, k))
    ensures forall i :: a <= i < k ==> !ClearsAt(run, i)
    decreases b - a
  {
    hide ClearsAt;
    if a == b || ClearsAt(run, a) {
      k := a;
    } else {
      k := FirstClear(run, a + 1, b);
    }
  }

  /** An LCL is seen in its nominal state ten seconds or more after one of its resets. */
  predicate RecoversAt(run: seq<Sample>, s: nat, k: nat)
    requires k < |run|
  {
    s < k && ResetAt(run, s) && !run[k].triggered && run[k].time >= run[s].time + RECOVERY_PERIOD
  }

  lemma ClearMeans(run: seq<Sample>, k: nat) returns (s: nat)
    requires Ordered(run) && k < |run| && run[k].lo && At(run, k).liftoffAt != 0 && ClearsAt(run, k)
    ensures At(run, k + 1).record.state == GivenUp || RecoversAt(run, s, k)
  {
    s := 0;
    AtStep(run, k);
    CounterIsBounded(run, k);
    StepClears(At(run, k), run[k]);
    hide At, Step, ResetAt;
    if At(run, k + 1).record.state != GivenUp {
      s := LastResetIsOnRecord(run, k);
      ElapsedIsShorter(run[s].time, run[k].time);
    }
  }

  lemma StepClears(c: Channel, s: Sample)
    requires s.lo && c.liftoffAt != 0 && 0 < c.record.resetCounter <= MAX_RESET_COUNT
    ensures var r := Step(c, s).0.record;
            r.resetCounter > 0 || r.state == GivenUp ||
            (!s.triggered && c.record.lastResetAt > 0 &&
             Elapsed(Wrap(s.time), c.record.lastResetAt) >= RECOVERY_PERIOD)
  {
    hide Elapsed, Wrap;
  }

  lemma {:induction false} StillFlying(run: seq<Sample>, a: nat, b: nat)
    requires a <= b <= |run| && InFlight(run, a, b) && At(run, a).liftoffAt != 0
    ensures At(run, b).liftoffAt != 0
  {
    if a < b {
      StillFlying(run, a, b - 1);
    }
  }

  /** Within a flight, an LCL is reset more than ten times only if it recovered in between. */
  lemma ElevenResetsNeedRecovery(run: seq<Sample>, a: nat, b: nat) returns (s: nat, k: nat)
    requires Ordered(run) && a <= b <= |run| && InFlight(run, a, b) && At(run, a).liftoffAt != 0
    requires Resets(run, a, b) > 10
    ensures a <= k < b && RecoversAt(run, s, k)
  {
    hide At, ClearsAt, Resets, RecoversAt;
    k := FirstClear(run, a, b);
    AtMostTenResets(run, a, k);
    ResetsSplit(run, a, k, b);
    NoCallsNoResets(run, b);
    StillFlying(run, a, k);
    s := ClearMeans(run, k);
    if At(run, k + 1).record.state == GivenUp {
      StillFlying(run, k, k + 1);
      OffOrGivenUpStays(run, k + 1, b);
      ResetsSplit(run, k, k + 1, b);
      GivingUpIsNoReset(run, k);
      assert false;
    }
  }

  lemma NoCallsNoResets(run: seq<Sample>, k: nat)
    requires k <= |run|
    ensures Resets(run, k, k) == 0
  {
  }

  lemma GivingUpIsNoReset(run: seq<Sample>, k: nat)
    requires k < |run| && At(run, k + 1).record.state == GivenUp
    ensures Resets(run, k, k + 1) == 0 && Resets(run, k, k) == 0
  {
    AtStep(run, k);
    hide At;
    assert Resets(run, k, k) == 0;
  }

  // ----------------------------------------------------------------------------------------
  // What does not count against an LCL
  // ----------------------------------------------------------------------------------------

  /** The last reset of the record was in call s, or the counter has been cleared since. */
  predicate RemembersReset(run: seq<Sample>, s: nat, r: AutoReset)
    requires s < |run|
  {
    r.state == GivenUp || r.state == Off || r.lastResetAt == Wrap(run[s].time) ||
    r.resetCounter == r.lastResetAt == 0
  }

  lemma StepRemembers(run: seq<Sample>, s: nat, c: Channel, sample: Sample)
    requires s < |run| && RemembersReset(run, s, c.record) && c.liftoffAt != 0 && sample.lo
    requires !Step(c, sample).1
    ensures RemembersReset(run, s, Step(c, sample).0.record) && Step(c, sample).0.liftoffAt != 0
  {
    hide Wrap, Elapsed;
  }

  lemma {:induction false} RemembersUntil(run: seq<Sample>, s: nat, j: nat)
    requires s < j <= |run| && InFlight(run, s, j) && ResetAt(run, s) && Resets(run, s + 1, j) == 0
    ensures RemembersReset(run, s, At(run, j).record) && At(run, j).liftoffAt != 0
  {
    AtStep(run, j - 1);
    if j - 1 > s {
      assert !ResetAt(run, j - 1);
      hide At, Step, RemembersReset;
      RemembersUntil(run, s, j - 1);
      StepRemembers(run, s, At(run, j - 1), run[j - 1]);
      assert ResetAt(run, j - 1) == Step(At(run, j - 1), run[j - 1]).1;
    }
  }

  /**
   * An LCL that is on and in its nominal state ten seconds or more after its last reset has its
   * counter cleared, provided that the clock did not read zero at that reset, and has not made a full
   * turn since.
   */
  lemma RecoveryClears(run: seq<Sample>, s: nat, k: nat)
    requires s < k < |run| && InFlight(run, s, k + 1) && ResetAt(run, s) && Resets(run, s + 1, k) == 0
    requires At(run, k).record.state == On && !run[k].triggered && Wrap(run[s].time) > 0
    requires run[s].time + 10000 <= run[k].time < run[s].time + 0x1_0000_0000
    ensures var r := At(run, k + 1).record;
            && r.state == On && r.resetCounter == r.lastResetAt == 0
            && (At(run, k).record.resetCounter > 0 ==> r.lastTriggerAt == 0)
    ensures At(run, k + 1).liftoffAt != 0
  {
    RemembersUntil(run, s, k);
    AtStep(run, k);
    ElapsedIsExact(run[s].time, run[k].time);
    hide At, Wrap, Elapsed;
  }

  /**
   * The exact condition for a counter that is not clear: the clock did not read zero at the last reset,
   * and what it makes of the time since then is at least ten seconds.
   */
  lemma RecoveryClearsIff(run: seq<Sample>, s: nat, k: nat)
    requires Ordered(run) && s < k < |run| && InFlight(run, s, k + 1) && ResetAt(run, s) && Resets(run, s + 1, k) == 0
    requires At(run, k).record.state == On && !run[k].triggered && At(run, k).record.resetCounter > 0
    ensures At(run, k + 1).record.resetCounter == 0 <==>
            Wrap(run[s].time) > 0 && Wrap(run[k].time - run[s].time) >= 10000
  {
    RemembersUntil(run, s, k);
    AtStep(run, k);
    ElapsedIsShorter(run[s].time, run[k].time);
    hide At, Wrap, Elapsed;
  }

  /** An LCL that is given up has nothing on its account. */
  lemma {:induction false} GivenUpForgets(run: seq<Sample>, j: nat)
    requires j <= |run|
    ensures At(run, j).record.state == GivenUp ==> At(run, j).record.resetCounter == 0
  {
    if j > 0 {
      GivenUpForgets(run, j - 1);
      AtStep(run, j - 1);
      hide At, Wrap, Elapsed;
    }
  }

  /** After a recovery an LCL gets ten more resets, should it stay triggered from then on. */
  lemma RecoveredGetsTenMore(run: seq<Sample>, s: nat, k: nat, b: nat, gap: nat)
    requires s < k < b <= |run| && InFlight(run, s, k + 1) && ResetAt(run, s) && Resets(run, s + 1, k) == 0
    requires At(run, k).record.state == On && !run[k].triggered && Wrap(run[s].time) > 0
    requires run[s].time + 10000 <= run[k].time < run[s].time + 0x1_0000_0000
    requires 0 < gap <= MAX_GAP && Stuck(run, k + 1, b, gap)
    requires run[b - 1].time >= run[k].time + 60000 + 31 * gap
    ensures Resets(run, k + 1, b) == 10 && At(run, b).record.state == GivenUp
  {
    hide At, Resets, ResetAt, Stuck, Wrap;
    RecoveryClears(run, s, k);
    StuckGetsTenResets(run, k + 1, b, gap);
  }

  lemma {:induction false} WaitsFor(run: seq<Sample>, a: nat, j: nat)
    requires Ordered(run) && a < j <= |run| && At(run, a).liftoffAt != 0
    requires At(run, a).record.state == On && At(run, a).record.resetCounter < MAX_RESET_COUNT
    requires TriggeredSince(run, a, j) && run[j - 1].time < run[a].time + 3000
    ensures var c := At(run, a);
            At(run, j) == c.(record := c.record.(state := Waiting, lastTriggerAt := Wrap(run[a].time)))
    ensures Resets(run, a, j) == 0
  {
    AtStep(run, j - 1);
    NoCallsNoResets(run, a);
    if j - 1 > a {
      ElapsedIsExact(run[a].time, run[j - 1].time);
      hide At, Wrap, Elapsed;
      WaitsFor(run, a, j - 1);
    } else {
      hide At, Wrap, Elapsed;
    }
  }

  /** A trigger that goes away within three seconds leaves an LCL on, and costs it nothing. */
  lemma ShortTriggerIsForgiven(run: seq<Sample>, a: nat, b: nat)
    requires Ordered(run) && a < b < |run| && At(run, a).liftoffAt != 0
    requires At(run, a).record.state == On && At(run, a).record.resetCounter < MAX_RESET_COUNT
    requires TriggeredSince(run, a, b) && run[b - 1].time < run[a].time + 3000
    requires run[b].lo && !run[b].triggered
    ensures At(run, b + 1).record.state == On
    ensures At(run, b + 1).record.resetCounter == At(run, a).record.resetCounter && Resets(run, a, b + 1) == 0
  {
    WaitsFor(run, a, b);
    AtStep(run, b);
    hide At, Wrap, Elapsed;
  }

  /** The record of a reset that was made at the given time, the n-th one. */
  predicate TriedAt(c: Channel, time: nat, n: nat) {
    && c.record.state == TriedRecently && c.record.lastResetAt == Wrap(time) && c.record.resetCounter == n
    && c.liftoffAt != 0
  }

  lemma {:induction false} StaysTried(run: seq<Sample>, s: nat, j: nat)
    requires Ordered(run) && s < j <= |run| && InFlight(run, s, j) && ResetAt(run, s)
    requires run[j - 1].time < run[s].time + 3000
    ensures TriedAt(At(run, j), run[s].time, At(run, s).record.resetCounter + 1)
  {
    hide At, Step, TriedAt, Wrap, ResetAt;
    if j - 1 > s {
      StaysTried(run, s, j - 1);
      NoResetYet(run, s, j - 1);
    } else {
      TriedOnce(run, s);
    }
  }

  lemma NoResetYet(run: seq<Sample>, s: nat, k: nat)
    requires s < k < |run| && run[k].lo && run[s].time <= run[k].time < run[s].time + 3000
    requires TriedAt(At(run, k), run[s].time, At(run, s).record.resetCounter + 1)
    ensures At(run, k + 1) == At(run, k) && !ResetAt(run, k)
  {
    AtStep(run, k);
    hide At, Step, TriedAt, Wrap;
    StepStaysTried(At(run, k), run[s].time, run[k], At(run, s).record.resetCounter + 1);
  }

  lemma TriedOnce(run: seq<Sample>, s: nat)
    requires s < |run| && ResetAt(run, s)
    ensures TriedAt(At(run, s + 1), run[s].time, At(run, s).record.resetCounter + 1)
  {
    AtStep(run, s);
    hide At, Step, TriedAt;
    CounterIsBounded(run, s);
    StepFires(At(run, s), run[s]);
  }

  lemma {:induction false} OnlyOneReset(run: seq<Sample>, s: nat, j: nat)
    requires Ordered(run) && s < j <= |run| && InFlight(run, s, j) && ResetAt(run, s)
    requires run[j - 1].time < run[s].time + 3000
    ensures Resets(run, s, j) == 1
  {
    hide At, ResetAt;
    if j - 1 > s {
      StaysTried(run, s, j - 1);
      NoResetYet(run, s, j - 1);
      OnlyOneReset(run, s, j - 1);
    } else {
      NoCallsNoResets(run, s);
    }
  }

  lemma StepStaysTried(c: Channel, since: nat, s: Sample, n: nat)
    requires TriedAt(c, since, n) && s.lo && since <= s.time < since + 3000
    ensures Step(c, s) == (c, false)
  {
    ElapsedIsExact(since, s.time);
    hide Wrap, Elapsed;
  }

  lemma StepFires(c: Channel, s: Sample)
    requires Step(c, s).1 && c.record.resetCounter <= MAX_RESET_COUNT
    ensures TriedAt(Step(c, s).0, s.time, c.record.resetCounter + 1)
  {
    hide Wrap, Elapsed;
  }

  /** Three seconds after a reset, and not before, an LCL is watched again, triggered or not. */
  lemma WatchedAgain(run: seq<Sample>, s: nat, k: nat)
    requires Ordered(run) && s < k < |run| && InFlight(run, s, k + 1) && ResetAt(run, s)
    requires run[k - 1].time < run[s].time + 3000 <= run[k].time < run[s].time + 0x1_0000_0000
    ensures At(run, k).record.state == TriedRecently && At(run, k + 1).record.state == On
    ensures At(run, k + 1).record.resetCounter == At(run, s).record.resetCounter + 1 && Resets(run, s, k + 1) == 1
  {
    StaysTried(run, s, k);
    OnlyOneReset(run, s, k);
    AtStep(run, k);
    assert ResetAt(run, k) == Step(At(run, k), run[k]).1;
    WatchedStep(At(run, k), run[s].time, run[k], At(run, s).record.resetCounter + 1);
    assert At(run, k).record.state == TriedRecently;
    hide At, Wrap, Step, ResetAt, TriedAt;
  }

  lemma WatchedStep(c: Channel, since: nat, s: Sample, n: nat)
    requires TriedAt(c, since, n) && s.lo && since + 3000 <= s.time < since + 0x1_0000_0000
    ensures Step(c, s) == (c.(record := c.record.(state := On)), false) && c.record.resetCounter == n
  {
    ElapsedIsExact(since, s.time);
    hide Wrap, Elapsed;
  }

  // ----------------------------------------------------------------------------------------
  // Off until the end of the flight
  // ----------------------------------------------------------------------------------------

  /**
   * An LCL that was triggered at liftoff is off after the next call, provided that the clock did
   * not read zero at liftoff: otherwise the next call takes it for another liftoff.
   */
  lemma OffAtLiftoff(run: seq<Sample>, k: nat)
    requires k + 1 < |run| && run[k].lo && run[k + 1].lo && At(run, k).liftoffAt == 0
    requires run[k].triggered && !run[k].bootedAfterLiftoff
    ensures At(run, k + 2).record.state == Off <==>
            Wrap(run[k].time) != 0 || (run[k + 1].triggered && !run[k + 1].bootedAfterLiftoff)
  {
    AtStep(run, k);
    AtStep(run, k + 1);
    hide At, Step, Wrap;
    LiftoffSteps(At(run, k), run[k], run[k + 1]);
  }

  /** With that proviso it is left alone until the end of the flight. */
  lemma OffForTheFlight(run: seq<Sample>, k: nat, b: nat)
    requires k < b <= |run| && InFlight(run, k, b) && At(run, k).liftoffAt == 0
    requires run[k].triggered && !run[k].bootedAfterLiftoff && Wrap(run[k].time) != 0
    ensures At(run, b).record.state == Off && Resets(run, k, b) == 0
  {
    AtStep(run, k);
    hide At, Wrap;
    OffOrGivenUpStays(run, k + 1, b);
    ResetsSplit(run, k, k + 1, b);
    NoCallsNoResets(run, k);
  }

  lemma LiftoffSteps(c: Channel, s: Sample, next: Sample)
    requires c.liftoffAt == 0 && s.lo && next.lo && s.triggered && !s.bootedAfterLiftoff
    ensures var (c', fired) := Step(c, s);
            && c'.record.state == Off && c'.liftoffAt == Wrap(s.time) && !fired
            && (Step(c', next).0.record.state == Off <==>
                Wrap(s.time) != 0 || (next.triggered && !next.bootedAfterLiftoff))
  {
  }

  // ----------------------------------------------------------------------------------------
  // An LCL that cannot be reset
  // ----------------------------------------------------------------------------------------

  /** The largest gap between calls with which an interval of three seconds cannot be missed. */
  const MAX_GAP: nat := 0x1_0000_0000 - 3000

  /** In the calls from a up to b, exclusive, the LCL is triggered in flight, and no gap between calls is too long. */
  predicate Stuck(run: seq<Sample>, a: nat, b: nat, gap: nat)
    requires 0 < a && b <= |run|
  {
    forall k :: a <= k < b ==>
      run[k].lo && run[k].triggered && run[k - 1].time <= run[k].time <= run[k - 1].time + gap
  }

  /** How long n more resets can take: six seconds each, and three calls that come late. */
  function Cost(n: int, gap: nat): int {
    n * (6000 + 3 * gap)
  }

  lemma CostOfOneMore(n: int, gap: nat)
    ensures Cost(n, gap) == Cost(n - 1, gap) + 6000 + 3 * gap
    ensures Cost(0, gap) == 0
  {
  }

  /** The LCL is on its way to be given up by the deadline; the last call was at the given time. */
  ghost predicate Trying(c: Channel, time: nat, gap: nat, deadline: int) {
    var r := c.record;
    var cost := Cost(10 - r.resetCounter, gap);
    && c.liftoffAt != 0 && r.resetCounter <= 10
    && match r.state
       case On => time + cost + gap <= deadline
       case Waiting =>
         r.resetCounter < 10 &&
         exists w: nat :: w <= time < w + 3000 && r.lastTriggerAt == Wrap(w) && w + cost <= deadline
       case TriedRecently =>
         exists w: nat :: w <= time < w + 3000 && r.lastResetAt == Wrap(w) && w + 3000 + 2 * gap + cost <= deadline
       case _ => false
  }

  /** Within one turn of the clock, its differences are exact. */
  lemma ElapsedIsExact(since: nat, now: nat)
    requires since <= now < since + 0x1_0000_0000
    ensures Elapsed(Wrap(now), Wrap(since)) == now - since
  {
    ElapsedIsShorter(since, now);
    WrapSmall(now - since);
  }

  lemma TryingOn(c: Channel, time: nat, s: Sample, gap: nat, deadline: int)
    requires Trying(c, time, gap, deadline) && c.record.state == On && s.lo && s.triggered
    requires time <= s.time <= time + gap
    ensures var (c', fired) := Step(c, s);
            && !fired
            && if c.record.resetCounter == 10 then c'.record.state == GivenUp
               else c'.record.resetCounter == c.record.resetCounter && Trying(c', s.time, gap, deadline)
  {
    hide Cost, Wrap;
    var c' := Step(c, s).0;
    if c.record.resetCounter < 10 {
      assert s.time <= s.time < s.time + 3000 && c'.record.lastTriggerAt == Wrap(s.time);
    }
  }

  lemma TryingWaiting(c: Channel, time: nat, s: Sample, gap: nat, deadline: int)
    requires Trying(c, time, gap, deadline) && c.record.state == Waiting && s.lo && s.triggered
    requires time <= s.time <= time + gap && gap <= MAX_GAP
    ensures var (c', fired) := Step(c, s);
            && c'.record.resetCounter == c.record.resetCounter + (if fired then 1 else 0)
            && Trying(c', s.time, gap, deadline)
  {
    CostOfOneMore(10 - c.record.resetCounter, gap);
    hide Cost, Wrap;
    var c', cost := Step(c, s).0, Cost(10 - c.record.resetCounter, gap);
    var w: nat :| w <= time < w + 3000 && c.record.lastTriggerAt == Wrap(w) && w + cost <= deadline;
    ElapsedIsExact(w, s.time);
    if s.time - w < 3000 {
      assert w <= s.time < w + 3000 && c'.record.lastTriggerAt == Wrap(w);
    } else {
      assert s.time <= s.time < s.time + 3000 && c'.record.lastResetAt == Wrap(s.time);
    }
  }

  lemma TryingRecently(c: Channel, time: nat, s: Sample, gap: nat, deadline: int)
    requires Trying(c, time, gap, deadline) && c.record.state == TriedRecently && s.lo
    requires time <= s.time <= time + gap && gap <= MAX_GAP
    ensures var (c', fired) := Step(c, s);
            !fired && c'.record.resetCounter == c.record.resetCounter && Trying(c', s.time, gap, deadline)
  {
    hide Cost, Wrap;
    var c', cost := Step(c, s).0, Cost(10 - c.record.resetCounter, gap);
    var w: nat :| w <= time < w + 3000 && c.record.lastResetAt == Wrap(w) && w + 3000 + 2 * gap + cost <= deadline;
    ElapsedIsExact(w, s.time);
    if s.time - w < 3000 {
      assert w <= s.time < w + 3000 && c'.record.lastResetAt == Wrap(w);
    }
  }

  lemma StuckStep(c: Channel, time: nat, s: Sample, gap: nat, deadline: int)
    requires Trying(c, time, gap, deadline) && s.lo && s.triggered
    requires time <= s.time <= time + gap && gap <= MAX_GAP
    ensures var (c', fired) := Step(c, s);
            if c'.record.state == GivenUp then c.record.resetCounter == 10 && !fired && c'.liftoffAt != 0
            else
              && Trying(c', s.time, gap, deadline)
              && c'.record.resetCounter == c.record.resetCounter + (if fired then 1 else 0)
  {
    TryingIs(c, time, gap, deadline);
    StepKeepsFlight(c, s);
    hide Trying, Step;
    match c.record.state
    case On => TryingOn(c, time, s, gap, deadline);
    case Waiting => TryingWaiting(c, time, s, gap, deadline);
    case TriedRecently => TryingRecently(c, time, s, gap, deadline);
    case _ =>
    TryingIs(Step(c, s).0, s.time, gap, deadline);
  }

  lemma TryingIs(c: Channel, time: nat, gap: nat, deadline: int)
    ensures Trying(c, time, gap, deadline) ==>
              c.record.state in {On, Waiting, TriedRecently} && c.liftoffAt != 0 && c.record.resetCounter <= 10
  {
    hide Cost, Wrap;
  }

  lemma StepKeepsFlight(c: Channel, s: Sample)
    requires s.lo && c.liftoffAt != 0
    ensures Step(c, s).0.liftoffAt != 0
  {
  }

  /** Until it is given up, a stuck LCL keeps its deadline, and every reset is counted. */
  lemma {:induction false} StuckProgress(run: seq<Sample>, a: nat, b: nat, gap: nat, deadline: int)
    requires 0 < a <= b <= |run| && Stuck(run, a, b, gap) && gap <= MAX_GAP
    requires Trying(At(run, a), run[a - 1].time, gap, deadline)
    ensures var (c, n) := (At(run, a).record.resetCounter, Resets(run, a, b));
            if At(run, b).record.state == GivenUp then At(run, b).liftoffAt != 0 && c + n == 10
            else Trying(At(run, b), run[b - 1].time, gap, deadline) && At(run, b).record.resetCounter == c + n
  {
    hide At, Trying, Step;
    TryingIs(At(run, a), run[a - 1].time, gap, deadline);
    if a < b {
      StuckProgress(run, a, b - 1, gap, deadline);
      AtStep(run, b - 1);
      if At(run, b - 1).record.state == GivenUp {
        OffOrGivenUpStays(run, b - 1, b);
        ResetsSplit(run, a, b - 1, b);
      } else {
        StuckStep(At(run, b - 1), run[b - 2].time, run[b - 1], gap, deadline);
      }
    }
  }

  lemma DeadlineIsAhead(c: Channel, time: nat, gap: nat, deadline: int)
    requires Trying(c, time, gap, deadline) && gap > 0
    ensures time < deadline
  {
    var n := 10 - c.record.resetCounter;
    CostIsNonnegative(n, gap);
    if n > 0 {
      CostIsNonnegative(n - 1, gap);
      CostOfOneMore(n, gap);
    }
    hide Cost, Wrap;
  }

  lemma TryingFromOn(c: Channel, time: nat, gap: nat, deadline: int)
    requires c.liftoffAt != 0 && c.record.state == On && c.record.resetCounter <= 10
    requires deadline == time + Cost(10 - c.record.resetCounter, gap) + gap
    ensures Trying(c, time, gap, deadline)
  {
    hide Cost, Wrap;
  }

  lemma CostIsNonnegative(n: int, gap: nat)
    requires n >= 0
    ensures Cost(n, gap) >= 0
  {
  }

  /** From an LCL that is on, stuck for long enough to use up its resets, as far as time goes. */
  predicate StuckLongEnough(run: seq<Sample>, a: nat, b: nat, gap: nat) {
    && 0 < a <= b <= |run| && Stuck(run, a, b, gap)
    && At(run, a).liftoffAt != 0 && At(run, a).record.state == On
    && run[b - 1].time >= run[a - 1].time + Cost(10 - At(run, a).record.resetCounter, gap) + gap
  }

  /**
   * An LCL that was on and stays triggered gets exactly as many resets as are left of ten, after
   * which it is given up, for every schedule of calls on which enough time passes.
   */
  lemma StuckIsGivenUp(run: seq<Sample>, a: nat, b: nat, gap: nat)
    requires StuckLongEnough(run, a, b, gap) && 0 < gap <= MAX_GAP
    ensures At(run, b).record.state == GivenUp
    ensures Resets(run, a, b) == 10 - At(run, a).record.resetCounter
  {
    CounterIsBounded(run, a);
    var deadline := run[a - 1].time + Cost(10 - At(run, a).record.resetCounter, gap) + gap;
    TryingFromOn(At(run, a), run[a - 1].time, gap, deadline);
    hide At, Resets, Cost, Trying, Stuck;
    StuckProgress(run, a, b, gap, deadline);
    if At(run, b).record.state != GivenUp {
      DeadlineIsAhead(At(run, b), run[b - 1].time, gap, deadline);
    }
  }

  /** From a cleared counter, that is exactly ten resets, within a minute and 31 gaps. */
  lemma StuckGetsTenResets(run: seq<Sample>, a: nat, b: nat, gap: nat)
    requires 0 < a <= b <= |run| && 0 < gap <= MAX_GAP && Stuck(run, a, b, gap)
    requires At(run, a).liftoffAt != 0 && At(run, a).record.state == On && At(run, a).record.resetCounter == 0
    requires run[b - 1].time >= run[a - 1].time + 60000 + 31 * gap
    ensures Resets(run, a, b) == 10 && At(run, b).record.state == GivenUp
  {
    hide At, Resets, Stuck;
    StuckIsGivenUp(run, a, b, gap);
  }

  // ----------------------------------------------------------------------------------------
  // Gaps that the clock hides
  // ----------------------------------------------------------------------------------------

  /** Liftoff at one millisecond; after that, two triggered calls in every turn of the clock, 2999 ms apart. */
  function StalledSample(k: nat): Sample {
    if k == 0 then Sample(1, true, false, false)
    else Sample(2 + 0x1_0000_0000 * ((k - 1) / 2) + (if k % 2 == 1 then 0 else 2999), true, true, false)
  }

  function Stalled(n: nat): (run: seq<Sample>)
    ensures |run| == n
  {
    seq(n, k requires 0 <= k => StalledSample(k))
  }

  const WAITING_SINCE_TWO := Channel(1, AutoReset(Waiting, 2, 0, 0))

  /** To the clock, all these calls come within three seconds. */
  lemma StalledClock(k: nat)
    requires k > 0
    ensures Wrap(StalledSample(k).time) == if k % 2 == 1 then 2 else 3001
  {
    var rest := if k % 2 == 1 then 2 else 3001;
    WrapMultiple(rest, (k - 1) / 2);
    WrapSmall(rest);
  }

  lemma StalledStep(k: nat)
    requires k > 0
    ensures Step(WAITING_SINCE_TWO, StalledSample(k)) == (WAITING_SINCE_TWO, false)
  {
    StalledClock(k);
    WrapSmall(0);
    WrapSmall(2999);
    hide Wrap;
    var s := StalledSample(k);
    assert Elapsed(Wrap(s.time), 2) < 3000;
  }

  /** So the LCL waits and is never reset. */
  lemma {:induction false} StalledWaits(n: nat)
    requires n >= 2
    ensures At(Stalled(n), n) == WAITING_SINCE_TWO && Resets(Stalled(n), 1, n) == 0
    ensures At(Stalled(n), 1) == Channel(1, AutoReset(On, 0, 0, 0))
  {
    StalledStart(n);
    StalledFrom(n, n);
  }

  lemma StalledStart(n: nat)
    requires n >= 2
    ensures At(Stalled(n), 1) == Channel(1, AutoReset(On, 0, 0, 0))
    ensures At(Stalled(n), 2) == WAITING_SINCE_TWO && Resets(Stalled(n), 1, 2) == 0
  {
    var run := Stalled(n);
    WrapSmall(1);
    WrapSmall(2);
    AtStep(run, 0);
    AtStep(run, 1);
    assert At(run, 0) == GROUNDED;
    hide At, Wrap;
    NoCallsNoResets(run, 1);
  }

  lemma {:induction false} StalledFrom(n: nat, j: nat)
    requires 2 <= j <= n
    ensures At(Stalled(n), j) == WAITING_SINCE_TWO && Resets(Stalled(n), 1, j) == 0
  {
    StalledStart(n);
    if j > 2 {
      StalledFrom(n, j - 1);
      AtStep(Stalled(n), j - 1);
      hide At, StalledSample, Step;
      StalledStep(j - 1);
    }
  }

  /** Only the gap to the next turn of the clock is long, and a little too long. */
  lemma StalledIsStuck(n: nat, gap: nat)
    requires n >= 2 && gap > MAX_GAP
    ensures Stuck(Stalled(n), 1, n, gap)
    ensures Stalled(n)[n - 1].time >= 0x1_0000_0000 * ((n - 2) / 2)
  {
    forall k | 1 <= k < n
      ensures StalledSample(k - 1).time <= StalledSample(k).time <= StalledSample(k - 1).time + gap
    {
      StalledGap(k);
    }
  }

  lemma StalledGap(k: nat)
    requires k > 0
    ensures StalledSample(k - 1).time <= StalledSample(k).time <= StalledSample(k - 1).time + MAX_GAP + 1
  {
    if k > 1 {
      var turn := (k - 2) / 2;
      if k % 2 == 1 {
        assert (k - 1) / 2 == turn + 1;
      } else {
        assert (k - 1) / 2 == turn;
      }
    }
  }

  /**
   * If gaps may be even one millisecond longer than the bound, an LCL can be stuck for any length of
   * time without a single reset.
   */
  lemma LongGapsCanStall(gap: nat, length: nat) returns (run: seq<Sample>)
    requires gap > MAX_GAP
    ensures |run| >= 2 && Stuck(run, 1, |run|, gap) && run[|run| - 1].time >= length
    ensures At(run, 1) == Channel(1, AutoReset(On, 0, 0, 0)) && run[0].time == 1
    ensures At(run, |run|).record.state == Waiting && Resets(run, 1, |run|) == 0
  {
    var n := 2 * length + 2;
    run := Stalled(n);
    StalledWaits(n);
    StalledIsStuck(n, gap);
  }

  /** With gaps up to a length, every stuck LCL is given up in the end. */
  ghost predicate AlwaysGivenUp(gap: nat) {
    forall run, a, b :: StuckLongEnough(run, a, b, gap) ==> At(run, b).record.state == GivenUp
  }

  /** That is so if and only if three seconds cannot hide in a gap. */
  lemma AlwaysGivenUpIff(gap: nat)
    requires gap > 0
    ensures AlwaysGivenUp(gap) <==> gap <= MAX_GAP
  {
    hide Stuck, Cost, At;
    if gap <= MAX_GAP {
      forall run, a, b | StuckLongEnough(run, a, b, gap)
        ensures At(run, b).record.state == GivenUp
      {
        StuckIsGivenUp(run, a, b, gap);
      }
    } else {
      CostIsNonnegative(10, gap);
      var run := LongGapsCanStall(gap, 1 + Cost(10, gap) + gap);
      assert StuckLongEnough(run, 1, |run|, gap);
    }
  }
}
