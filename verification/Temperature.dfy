/**
 The observable temperature resource of res-temperature.c: once a second the periodic
 handler decides whether to notify the observers. `int` is taken as 32 bits with
 two's-complement wrap-around, for `abs` too.
 */
module Temperature {

  const MAX_AGE: int := 60
  const INTERVAL_MIN: int := 5
  const INTERVAL_MAX: int := MAX_AGE - 1
  const CHANGE: int := 1

  const INT_MIN: int := -0x8000_0000
  type int32 = x: int | INT_MIN <= x < 0x8000_0000

  function Wrap(x: int): int32 {
    var m: int := x % 0x1_0000_0000;
    if m < 0x8000_0000 then m else m - 0x1_0000_0000
  }

  /** `abs`, whose result for the least integer wraps around to itself. */
  function WrappedAbs(x: int32): int32 {
    if x < 0 then Wrap(-(x as int)) else x
  }

  function Abs(x: int): int {
    if x < 0 then -x else x
  }

  /** The test as compiled: `abs(temperature - temperature_old) >= CHANGE`. */
  predicate Changed(t: int32, last: int32) {
    WrappedAbs(Wrap(t - last)) >= CHANGE
  }

  /** Readings half the integer range apart, whose difference wraps to the least integer. */
  predicate Antipodal(t: int32, last: int32) {
    Abs(t - last) == 0x8000_0000
  }

  /** The compiled test is the exact one for every pair of readings but the antipodal ones. */
  lemma ChangedIsExact(t: int32, last: int32)
    ensures (Changed(t, last) <==> Abs(t - last) >= CHANGE) <==> !Antipodal(t, last)
    ensures Changed(t, last) <==> t != last && !Antipodal(t, last)
  {
    var d: int := t as int - last as int;
    WrapOnce(d);
    WrapOnce(-(Wrap(d) as int));
  }

  /** Within twice the range, wrapping around adds or subtracts 2^32 at most once. */
  lemma WrapOnce(d: int)
    requires -0x1_0000_0000 < d < 0x1_0000_0000
    ensures Wrap(d) == if d >= 0x8000_0000 then d - 0x1_0000_0000
                       else if d < INT_MIN then d + 0x1_0000_0000
                       else d
  {
    assert d % 0x1_0000_0000 == if d < 0 then d + 0x1_0000_0000 else d;
  }

  datatype State = State(counter: int, last: int32)

  const START: State := State(INTERVAL_MIN, INT_MIN)

  /** One period: the new state and whether the observers are notified. */
  function Tick(st: State, t: int32): (State, bool) {
    var counter := st.counter + 1;
    if (Changed(t, st.last) && counter >= INTERVAL_MIN) || counter >= INTERVAL_MAX then (State(0, t), true)
    else (st.(counter := counter), false)
  }

  class Resource {
    var intervalCounter: int
    var temperatureOld: int32

    ghost predicate Valid()
      reads this
    {
      0 <= intervalCounter < INTERVAL_MAX
    }

    ghost function Abstract(): State
      reads this
    {
      State(intervalCounter, temperatureOld)
    }

    constructor ()
      ensures Valid() && Abstract() == START
    {
      intervalCounter := INTERVAL_MIN;
      temperatureOld := INT_MIN;
    }

    /** `res_periodic_handler` for the given sensor reading. */
    method PeriodicHandler(temperature: int32) returns (notified: bool)
      requires Valid()
      modifies this
      ensures Valid()
      ensures (Abstract(), notified) == Tick(old(Abstract()), temperature)
      ensures notified <==>
              || old(intervalCounter) == 58
              || (old(intervalCounter) >= 4
                  && temperature != old(temperatureOld) && !Antipodal(temperature, old(temperatureOld)))
    {
      ChangedIsExact(temperature, temperatureOld);
      notified := false;
      intervalCounter := intervalCounter + 1;
      if (WrappedAbs(Wrap(temperature - temperatureOld)) >= CHANGE && intervalCounter >= INTERVAL_MIN)
         || intervalCounter >= INTERVAL_MAX {
        intervalCounter := 0;
        temperatureOld := temperature;
        notified := true;
      }
    }
  }

  // ----- runs -----

  ghost predicate ValidState(st: State) {
    0 <= st.counter < INTERVAL_MAX
  }

  /** The state after a run of readings. */
  function After(st: State, readings: seq<int32>): State
    decreases |readings|
  {
    if readings == [] then st else After(Tick(st, readings[0]).0, readings[1..])
  }

  /** For each reading of a run, whether it was notified. */
  function Notified(st: State, readings: seq<int32>): (n: seq<bool>)
    ensures |n| == |readings|
    decreases |readings|
  {
    if readings == [] then []
    else
      var (next, notified) := Tick(st, readings[0]);
      [notified] + Notified(next, readings[1..])
  }

  /** No notification among ticks a up to b. */
  ghost predicate Quiet(n: seq<bool>, a: int, b: int) {
    forall i | a <= i < b && 0 <= i < |n| :: !n[i]
  }

  /** Ticks i and k are consecutive notifications, or i the last one before k ticks are over. */
  ghost predicate LastBefore(n: seq<bool>, i: nat, k: nat) {
    i < k <= |n| && n[i] && Quiet(n, i + 1, k)
  }

  /** Without a notification the counter counts the ticks and the reported reading stays. */
  lemma {:induction false} QuietRun(st: State, readings: seq<int32>, k: nat)
    requires ValidState(st) && k <= |readings| && Quiet(Notified(st, readings), 0, k)
    ensures After(st, readings[..k]) == State(st.counter + k, st.last)
    ensures st.counter + k < INTERVAL_MAX
    decreases k
  {
    if k > 0 {
      var next := Tick(st, readings[0]).0;
      var n := Notified(st, readings);
      assert !n[0];
      assert forall i | 0 <= i < k - 1 :: Notified(next, readings[1..])[i] == n[i + 1];
      QuietRun(next, readings[1..], k - 1);
      assert readings[..k][1..] == readings[1..][..k - 1];
    }
  }

  /** A run is its first k ticks and then the rest from the state they lead to. */
  lemma {:induction false} RunSplit(st: State, readings: seq<int32>, k: nat)
    requires ValidState(st) && k <= |readings|
    ensures ValidState(After(st, readings[..k]))
    ensures Notified(st, readings)[k..] == Notified(After(st, readings[..k]), readings[k..])
    ensures k < |readings| ==>
              && After(st, readings[..k + 1]) == Tick(After(st, readings[..k]), readings[k]).0
              && Notified(st, readings)[k] == Tick(After(st, readings[..k]), readings[k]).1
    decreases k
  {
    if k > 0 {
      RunSplit(Tick(st, readings[0]).0, readings[1..], k - 1);
      assert readings[..k][1..] == readings[1..][..k - 1];
      assert k < |readings| ==> readings[..k + 1][1..] == readings[1..][..k];
    } else if readings != [] {
      assert readings[..1][1..] == [];
    }
  }

  /** Since the last notification, the counter is its age and the reported reading is its reading. */
  lemma SinceLast(st: State, readings: seq<int32>, i: nat, k: nat)
    requires ValidState(st) && LastBefore(Notified(st, readings), i, k)
    ensures After(st, readings[..k]) == State(k - i - 1, readings[i])
    ensures k - i - 1 < INTERVAL_MAX
  {
    NotifiedState(st, readings, i);
    RunSplit(st, readings, i + 1);
    var here, rest := After(st, readings[..i + 1]), readings[i + 1..];
    assert Quiet(Notified(here, rest), 0, k - i - 1) by {
      QuietShift(Notified(st, readings), i + 1, k);
    }
    QuietRun(here, rest, k - i - 1);
    AfterTwo(st, readings, i + 1, k);
  }

  lemma AfterTwo(st: State, readings: seq<int32>, a: nat, k: nat)
    requires a <= k <= |readings|
    ensures After(st, readings[..k]) == After(After(st, readings[..a]), readings[a..][..k - a])
  {
    AfterConcat(st, readings[..a], readings[a..][..k - a]);
    assert readings[..a] + readings[a..][..k - a] == readings[..k];
  }

  lemma NotifiedState(st: State, readings: seq<int32>, i: nat)
    requires ValidState(st) && i < |readings| && Notified(st, readings)[i]
    ensures After(st, readings[..i + 1]) == State(0, readings[i])
  {
    RunSplit(st, readings, i);
  }

  lemma QuietShift(n: seq<bool>, a: nat, k: nat)
    requires a <= k <= |n| && Quiet(n, a, k)
    ensures Quiet(n[a..], 0, k - a)
  {
  }

  lemma {:induction false} AfterConcat(st: State, a: seq<int32>, b: seq<int32>)
    ensures After(st, a + b) == After(After(st, a), b)
    decreases |a|
  {
    if a == [] {
      assert a + b == b;
    } else {
      AfterConcat(Tick(st, a[0]).0, a[1..], b);
      assert (a + b)[1..] == a[1..] + b;
    }
  }

  /** Consecutive notifications are at least 5 and at most 59 ticks apart, exactly 59 if the reading is the same. */
  lemma GapBounds(st: State, readings: seq<int32>, i: nat, j: nat)
    requires ValidState(st) && j < |readings|
    requires LastBefore(Notified(st, readings), i, j) && Notified(st, readings)[j]
    ensures 5 <= j - i <= 59
    ensures j - i < 59 ==> readings[j] != readings[i]
  {
    SinceLast(st, readings, i, j);
    RunSplit(st, readings, j);
    ChangedIsExact(readings[j], readings[i]);
  }

  /** Once notified, an observer never holds a representation as old as its Max-Age. */
  lemma NeverStale(st: State, readings: seq<int32>, i: nat, k: nat)
    requires ValidState(st) && LastBefore(Notified(st, readings), i, k)
    ensures k - i < 60
  {
    SinceLast(st, readings, i, k);
  }

  /** From start-up the first notification comes within 54 ticks, and not sooner for a reading of 0 or INT_MIN. */
  lemma FirstNotification(readings: seq<int32>, k: nat)
    requires k <= |readings| && Quiet(Notified(START, readings), 0, k)
    ensures k < 54
    ensures k < |readings| && Notified(START, readings)[k] && (readings[k] == 0 || readings[k] == INT_MIN) ==> k == 53
  {
    hide Notified, After, Tick, Quiet;
    QuietRun(START, readings, k);
    if k < |readings| {
      RunSplit(START, readings, k);
      UnchangedTick(State(5 + k, INT_MIN), readings[k]);
    }
  }

  lemma UnchangedTick(st: State, t: int32)
    requires st.last == INT_MIN
    ensures t == 0 || t == INT_MIN ==> (Tick(st, t).1 <==> st.counter >= 58)
  {
    ChangedIsExact(t, INT_MIN);
  }

  /** The first tick notifies unless the reading is 0 or the least integer. */
  lemma FirstTick(readings: seq<int32>)
    requires readings != []
    ensures Notified(START, readings)[0] <==> readings[0] != 0 && readings[0] != INT_MIN
  {
    ChangedIsExact(readings[0], INT_MIN);
  }

  /**
   Accuracy at the end of tick k, i being the last notification: from 5 ticks after it on, the
   reading is the one reported exactly when the two are not antipodal.
   */
  lemma Accuracy(st: State, readings: seq<int32>, i: nat, k: nat)
    requires ValidState(st) && LastBefore(Notified(st, readings), i, k + 1)
    requires k - i >= 5
    ensures readings[k] == readings[i] <==> !Antipodal(readings[k], readings[i])
  {
    SinceLast(st, readings, i, k);
    RunSplit(st, readings, k);
    ChangedIsExact(readings[k], readings[i]);
  }

  /** Hence a sensor whose readings span less than half the integer range is reported accurately. */
  lemma AccuracyInRange(st: State, readings: seq<int32>, lo: int, i: nat, k: nat)
    requires ValidState(st) && LastBefore(Notified(st, readings), i, k + 1)
    requires forall m | 0 <= m < |readings| :: lo <= readings[m] < lo + 0x8000_0000
    ensures readings[k] == readings[i] || k - i < 5
  {
    if k - i >= 5 {
      Accuracy(st, readings, i, k);
    }
  }

  const FAR_APART: seq<int32> := [1, -0x7FFF_FFFF, -0x7FFF_FFFF, -0x7FFF_FFFF, -0x7FFF_FFFF, -0x7FFF_FFFF]

  /** Without that bound it can fail: a changed reading still unreported after 5 ticks. */
  lemma AccuracyCanFail()
    ensures LastBefore(Notified(START, FAR_APART), 0, 6) && FAR_APART[5] != FAR_APART[0]
  {
    var after := State(0, 1);
    assert Tick(START, FAR_APART[0]) == (after, true);
    ChangedIsExact(-0x7FFF_FFFF, 1);
    SameReading(after, FAR_APART[1..]);
    assert forall m | 1 <= m < 6 :: Notified(START, FAR_APART)[m] == Notified(after, FAR_APART[1..])[m - 1];
  }

  /** A reading that does not count as a change is not notified while the counter allows it. */
  lemma {:induction false} SameReading(st: State, readings: seq<int32>)
    requires ValidState(st) && st.counter + |readings| < INTERVAL_MAX
    requires forall m | 0 <= m < |readings| :: !Changed(readings[m], st.last)
    ensures Quiet(Notified(st, readings), 0, |readings|)
    decreases |readings|
  {
    if readings != [] {
      var next := Tick(st, readings[0]).0;
      SameReading(next, readings[1..]);
      assert Notified(st, readings)[1..] == Notified(next, readings[1..]);
    }
  }

  // ----- how many notifications -----

  function Count(n: seq<bool>): nat {
    if n == [] then 0 else (if n[0] then 1 else 0) + Count(n[1..])
  }

  /** Ticks are conserved: every notification uses up 5 to 59 of them, the counter holds the rest. */
  lemma {:induction false} TicksConserved(st: State, readings: seq<int32>)
    requires ValidState(st)
    ensures var m, left := Count(Notified(st, readings)), After(st, readings).counter;
            && 0 <= left < 59
            && 5 * m + left <= st.counter + |readings| <= 59 * m + left
    decreases |readings|
  {
    if readings != [] {
      var next := Tick(st, readings[0]).0;
      TicksConserved(next, readings[1..]);
      assert Notified(st, readings)[1..] == Notified(next, readings[1..]);
    }
  }

  lemma {:induction false} AtMostCount(st: State, readings: seq<int32>)
    requires ValidState(st) && readings != []
    ensures Count(Notified(st, readings)) <= 1 + (|readings| - 1) / 5
    decreases |readings|
  {
    var next := Tick(st, readings[0]).0;
    assert Notified(st, readings)[1..] == Notified(next, readings[1..]);
    if Notified(st, readings)[0] {
      TicksConserved(next, readings[1..]);
    } else if |readings| > 1 {
      AtMostCount(next, readings[1..]);
    }
  }

  /** n >= 1 ticks from start-up: the bounds in general, and when the first tick notifies. */
  lemma NotificationCount(readings: seq<int32>)
    requires readings != []
    ensures var m, n := Count(Notified(START, readings)), |readings|;
            && (n + 5) / 59 <= m <= 1 + (n - 1) / 5
            && (readings[0] != 0 && readings[0] != INT_MIN ==> 1 + (n - 1) / 59 <= m)
  {
    AtMostCount(START, readings);
    TicksConserved(START, readings);
    FirstTick(readings);
    var next := Tick(START, readings[0]).0;
    TicksConserved(next, readings[1..]);
    assert Notified(START, readings)[1..] == Notified(next, readings[1..]);
  }
}
