/**
 * Timestamps that stand still while panwrap itself is at work (panwrap/panwrap-util.c).
 * ClockModel counts in nanoseconds; FrozenClock below does it with the source's timespecs.
 */
module ClockModel {
  datatype Clock = Clock(start: int, total: int, startFreeze: int, stamp: int, frozen: bool)

  function Started(now: int): Clock {
    Clock(now, 0, 0, 0, false)
  }

  function Freeze(c: Clock, now: int): Clock {
    c.(startFreeze := now, frozen := true, stamp := now - c.start - c.total)
  }

  function Unfreeze(c: Clock, now: int): Clock {
    if c.frozen then c.(frozen := false, total := c.total + (now - c.startFreeze)) else c
  }

  /** timestamp_get */
  function Stamp(c: Clock, now: int): int {
    if c.frozen then c.stamp else now - c.start - c.total
  }

  /** One use of the clock, at the time it reads. */
  datatype Event =
    | Freezes(t: int)
    | Unfreezes(t: int)
    | Stamps(t: int)

  function Apply(c: Clock, e: Event): Clock {
    match e
    case Freezes(t) => Freeze(c, t)
    case Unfreezes(t) => Unfreeze(c, t)
    case Stamps(t) => c
  }

  /** The history of a clock started at time `start`, newest event last. */
  function Run(start: int, events: seq<Event>): Clock {
    if events == [] then Started(start)
    else Apply(Run(start, events[..|events| - 1]), events[|events| - 1])
  }

  function Last(start: int, events: seq<Event>): int {
    if events == [] then start else events[|events| - 1].t
  }

  /** The monotonic clock never goes back. */
  ghost predicate Monotone(start: int, events: seq<Event>) {
    && (forall i :: 0 <= i < |events| ==> start <= events[i].t)
    && (forall i, j :: 0 <= i < j < |events| ==> events[i].t <= events[j].t)
  }

  /** What the log calls time at the moment of the last event. */
  function Reading(start: int, events: seq<Event>): int {
    Stamp(Run(start, events), Last(start, events))
  }

  lemma MonotonePrefix(start: int, events: seq<Event>)
    requires Monotone(start, events) && events != []
    ensures var before := events[..|events| - 1];
            Monotone(start, before) && start <= Last(start, before) <= Last(start, events)
  {
  }

  /** The frozen time accounted for never exceeds the time elapsed, on any history at all. */
  lemma {:induction false} Accounted(start: int, events: seq<Event>)
    requires Monotone(start, events)
    ensures var c, now := Run(start, events), Last(start, events);
            && c.start == start <= now && 0 <= c.total
            && if c.frozen
               then start + c.total <= c.startFreeze <= now && c.stamp == c.startFreeze - start - c.total
               else start + c.total <= now
  {
    if events != [] {
      MonotonePrefix(start, events);
      Accounted(start, events[..|events| - 1]);
    }
  }

  /**
   * For any sequence of freezes, unfreezes and readings, nested or not, timestamps are never
   * negative and never decrease.
   */
  lemma {:induction false} ReadingsNeverDecrease(start: int, events: seq<Event>, n: nat)
    requires Monotone(start, events) && n <= |events|
    ensures 0 <= Reading(start, events[..n]) <= Reading(start, events)
    decreases |events|
  {
    Accounted(start, events);
    if n == |events| {
      assert events[..n] == events;
    } else {
      var before := events[..|events| - 1];
      MonotonePrefix(start, events);
      Accounted(start, before);
      ReadingsNeverDecrease(start, before, n);
      assert before[..n] == events[..n];
    }
  }

  /** Whether time is frozen after these events: the last freeze or unfreeze was a freeze. */
  function FrozenAfter(events: seq<Event>): bool {
    if events == [] then false else
    match events[|events| - 1]
    case Freezes(_) => true
    case Unfreezes(_) => false
    case Stamps(_) => FrozenAfter(events[..|events| - 1])
  }

  /** The exact length of all the time spent frozen, up to the last event. */
  function ExactFrozen(start: int, events: seq<Event>): int {
    if events == [] then 0 else
    var before := events[..|events| - 1];
    ExactFrozen(start, before)
    + if FrozenAfter(before) then Last(start, events) - Last(start, before) else 0
  }

  /** A freeze while already frozen, at a later time than the freeze it overwrites. */
  predicate Overwrites(start: int, events: seq<Event>, k: nat)
    requires k < |events|
  {
    && events[k].Freezes? && FrozenAfter(events[..k])
    && Run(start, events[..k]).startFreeze != events[k].t
  }

  /** What a freeze loses: the frozen time before it that was not yet added to the total. */
  function Lost(start: int, events: seq<Event>): int {
    if events == [] then 0 else
    var before, e := events[..|events| - 1], events[|events| - 1];
    Lost(start, before)
    + if e.Freezes? && FrozenAfter(before) then e.t - Run(start, before).startFreeze else 0
  }

  /** Time in the log lags the exact unfrozen time by exactly what nested freezes lost. */
  lemma {:induction false} ReadingIsExactPlusLost(start: int, events: seq<Event>)
    requires Monotone(start, events)
    ensures Run(start, events).frozen == FrozenAfter(events)
    ensures Reading(start, events)
            == Last(start, events) - start - ExactFrozen(start, events) + Lost(start, events)
  {
    Accounted(start, events);
    if events != [] {
      MonotonePrefix(start, events);
      Accounted(start, events[..|events| - 1]);
      ReadingIsExactPlusLost(start, events[..|events| - 1]);
    }
  }

  lemma {:induction false} LostNothingIff(start: int, events: seq<Event>)
    requires Monotone(start, events)
    ensures Lost(start, events) >= 0
    ensures Lost(start, events) == 0 <==> forall k :: 0 <= k < |events| ==> !Overwrites(start, events, k)
  {
    if events != [] {
      var n := |events| - 1;
      var before := events[..n];
      MonotonePrefix(start, events);
      Accounted(start, before);
      ReadingIsExactPlusLost(start, before);
      LostNothingIff(start, before);
      assert forall k :: 0 <= k < n ==> before[..k] == events[..k];
      assert forall k :: 0 <= k < n ==> (Overwrites(start, before, k) <==> Overwrites(start, events, k));
      assert Overwrites(start, events, n) <==>
               events[n].Freezes? && FrozenAfter(before) && Run(start, before).startFreeze != events[n].t;
    }
  }

  /**
   * The contract of the comment in the source, that any time that passes while frozen is removed
   * from timestamps, is kept on a history exactly when no freeze overwrites an earlier one.
   */
  lemma ContractKeptIff(start: int, events: seq<Event>)
    requires Monotone(start, events)
    ensures Reading(start, events) == Last(start, events) - start - ExactFrozen(start, events)
            <==> forall k :: 0 <= k < |events| ==> !Overwrites(start, events, k)
  {
    ReadingIsExactPlusLost(start, events);
    LostNothingIff(start, events);
  }

  /**
   * Frozen at `a`, frozen again at `b` and unfrozen at `c`: the time from `a` to `b` stays in the
   * timestamp, although time was frozen.
   */
  lemma NestedFreezeLosesTime(start: int, a: int, b: int, c: int)
    requires start <= a < b <= c
    ensures var events := [Freezes(a), Freezes(b), Unfreezes(c)];
            && Monotone(start, events) && ExactFrozen(start, events) == c - a
            && Reading(start, events) == c - start - (c - b) > c - start - ExactFrozen(start, events)
  {
    hide Run, FrozenAfter, ExactFrozen;
    NoEvents(start);
    Extend(start, [], Freezes(a));
    Extend(start, [Freezes(a)], Freezes(b));
    Extend(start, [Freezes(a), Freezes(b)], Unfreezes(c));
    assert [] + [Freezes(a)] == [Freezes(a)];
    assert [Freezes(a)] + [Freezes(b)] == [Freezes(a), Freezes(b)];
    assert [Freezes(a), Freezes(b)] + [Unfreezes(c)] == [Freezes(a), Freezes(b), Unfreezes(c)];
  }

  lemma NoEvents(start: int)
    ensures Run(start, []) == Started(start) && ExactFrozen(start, []) == 0 && !FrozenAfter([])
  {
  }

  lemma Extend(start: int, before: seq<Event>, e: Event)
    ensures Run(start, before + [e]) == Apply(Run(start, before), e)
    ensures ExactFrozen(start, before + [e])
            == ExactFrozen(start, before) + if FrozenAfter(before) then e.t - Last(start, before) else 0
    ensures FrozenAfter(before + [e]) == if e.Stamps? then FrozenAfter(before) else e.Freezes?
  {
    assert (before + [e])[..|before|] == before;
  }
}

module FrozenClock {
  import ClockModel

  const BILLION: int := 1_000_000_000

  /** struct timespec, changed through a pointer by the two arithmetic helpers. */
  class Timespec {
    var sec: int
    var nsec: int

    constructor (sec: int, nsec: int)
      ensures this.sec == sec && this.nsec == nsec
    {
      this.sec, this.nsec := sec, nsec;
    }

    ghost predicate Normal()
      reads this
    {
      0 <= nsec < BILLION
    }

    ghost function Ns(): int
      reads this
    {
      Nanos(sec, nsec)
    }

    /** timespec_add */
    method Add(value: Timespec)
      requires Normal() && value.Normal()
      modifies this
      ensures Normal() && Ns() == old(Ns()) + old(value.Ns())
    {
      sec := sec + value.sec;
      nsec := nsec + value.nsec;
      if nsec >= BILLION {
        sec := sec + 1;
        nsec := nsec - BILLION;
      }
    }

    /** timespec_subtract */
    method Subtract(value: Timespec)
      requires Normal() && value.Normal()
      modifies this
      ensures Normal() && Ns() == old(Ns()) - old(value.Ns())
    {
      sec := sec - value.sec;
      nsec := nsec - value.nsec;
      if nsec < 0 {
        sec := sec - 1;
        nsec := BILLION + nsec;
      }
    }

    /** What clock_gettime or a structure assignment does. */
    method Set(sec: int, nsec: int)
      modifies this
      ensures this.sec == sec && this.nsec == nsec
    {
      this.sec, this.nsec := sec, nsec;
    }
  }

  /** The nanoseconds of a time as clock_gettime reports it. */
  function Nanos(sec: int, nsec: int): int {
    sec * BILLION + nsec
  }

  /** The clock variables of panwrap/panwrap-util.c. What clock_gettime reads is a parameter of each call. */
  class Timekeeper {
    const enabled: bool
    const startTime: Timespec
    const totalTimeFrozen: Timespec
    const startFreezeTime: Timespec
    const frozenTimestamp: Timespec
    var timeIsFrozen: bool

    ghost predicate Valid()
      reads this, startTime, totalTimeFrozen, startFreezeTime, frozenTimestamp
    {
      && startTime != totalTimeFrozen && startTime != startFreezeTime && startTime != frozenTimestamp
      && totalTimeFrozen != startFreezeTime && totalTimeFrozen != frozenTimestamp
      && startFreezeTime != frozenTimestamp
      && startTime.Normal() && totalTimeFrozen.Normal() && startFreezeTime.Normal() && frozenTimestamp.Normal()
    }

    ghost function Model(): ClockModel.Clock
      reads this, startTime, totalTimeFrozen, startFreezeTime, frozenTimestamp
    {
      ClockModel.Clock(startTime.Ns(), totalTimeFrozen.Ns(), startFreezeTime.Ns(), frozenTimestamp.Ns(), timeIsFrozen)
    }

    /** The static initial values and panwrap_util_init. */
    constructor (enabled: bool, sec: int, nsec: int)
      requires 0 <= nsec < BILLION
      ensures Valid() && this.enabled == enabled
      ensures Model() == ClockModel.Started(if enabled then Nanos(sec, nsec) else 0)
      ensures fresh(startTime) && fresh(totalTimeFrozen) && fresh(startFreezeTime) && fresh(frozenTimestamp)
    {
      this.enabled := enabled;
      startTime := new Timespec(if enabled then sec else 0, if enabled then nsec else 0);
      totalTimeFrozen := new Timespec(0, 0);
      startFreezeTime := new Timespec(0, 0);
      frozenTimestamp := new Timespec(0, 0);
      timeIsFrozen := false;
    }

    /** panwrap_freeze_time */
    method FreezeTime(sec: int, nsec: int)
      requires Valid() && 0 <= nsec < BILLION
      modifies this, startFreezeTime, frozenTimestamp
      ensures Valid()
      ensures Model() == if enabled then ClockModel.Freeze(old(Model()), Nanos(sec, nsec)) else old(Model())
    {
      if !enabled { return; }
      startFreezeTime.Set(sec, nsec);
      timeIsFrozen := true;
      frozenTimestamp.Set(startFreezeTime.sec, startFreezeTime.nsec);
      frozenTimestamp.Subtract(startTime);
      frozenTimestamp.Subtract(totalTimeFrozen);
    }

    /** panwrap_unfreeze_time */
    method UnfreezeTime(sec: int, nsec: int)
      requires Valid() && 0 <= nsec < BILLION
      modifies this, totalTimeFrozen
      ensures Valid()
      ensures Model() == if enabled then ClockModel.Unfreeze(old(Model()), Nanos(sec, nsec)) else old(Model())
    {
      if !enabled || !timeIsFrozen { return; }
      timeIsFrozen := false;
      var timeSpentFrozen := new Timespec(sec, nsec);
      timeSpentFrozen.Subtract(startFreezeTime);
      totalTimeFrozen.Add(timeSpentFrozen);
    }

    /** timestamp_get; `tp` is a variable of the caller. */
    method TimestampGet(tp: Timespec, sec: int, nsec: int)
      requires Valid() && 0 <= nsec < BILLION
      requires tp != startTime && tp != totalTimeFrozen && tp != startFreezeTime && tp != frozenTimestamp
      modifies tp
      ensures Valid() && Model() == old(Model())
      ensures tp.Normal() && tp.Ns() == ClockModel.Stamp(Model(), Nanos(sec, nsec))
    {
      if timeIsFrozen {
        tp.Set(frozenTimestamp.sec, frozenTimestamp.nsec);
        return;
      }
      tp.Set(sec, nsec);
      tp.Subtract(startTime);
      tp.Subtract(totalTimeFrozen);
    }
  }
}
