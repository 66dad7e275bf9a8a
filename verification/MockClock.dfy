/** The event scheduler of the mock clock, facebookgo/clock. */
module MockClock {
  import opened Bytes

  /** A timer fires once, a ticker again after every period; next is the time of the next tick. */
  datatype Event = Event(next: int, period: Option<nat>)

  /** The timers by identity: the source's slice holds pointers and is sorted, in no fixed order of equal times. */
  type Timers = map<nat, Event>

  datatype Firing = Firing(id: nat, time: int)

  predicate Positive(t: Event) {
    t.period.Some? ==> t.period.value > 0
  }

  ghost predicate AllPositive(ts: Timers) {
    forall id | id in ts :: Positive(ts[id])
  }

  // What should happen ----------------------------------------------------------------

  /** The ticks of t up to max. */
  function Due(t: Event, max: int): seq<int>
    requires Positive(t)
    decreases max - t.next
  {
    if t.next > max then []
    else if t.period.None? then [t.next]
    else [t.next] + Due(t.(next := t.next + t.period.value), max)
  }

  /** The timer once everything up to max has fired. */
  function Settled(t: Event, max: int): Option<Event>
    requires Positive(t)
    decreases max - t.next
  {
    if t.next > max then Some(t)
    else if t.period.None? then None
    else Settled(t.(next := t.next + t.period.value), max)
  }

  ghost function DueOf(ts: Timers, id: nat, max: int): seq<int>
    requires AllPositive(ts)
  {
    if id in ts then Due(ts[id], max) else []
  }

  ghost function SettledOf(ts: Timers, id: nat, max: int): Option<Event>
    requires AllPositive(ts)
  {
    if id in ts then Settled(ts[id], max) else None
  }

  /** A ticker fires at every multiple of its period that is due, and at no other time. */
  lemma {:induction false} DueMultiples(t: Event, max: int, k: nat)
    requires Positive(t) && t.period.Some?
    ensures k < |Due(t, max)| <==> t.next + k * t.period.value <= max
    ensures k < |Due(t, max)| ==> Due(t, max)[k] == t.next + k * t.period.value
    decreases max - t.next
  {
    var p := t.period.value;
    if t.next <= max && k > 0 {
      DueMultiples(t.(next := t.next + p), max, k - 1);
      assert t.next + p + (k - 1) * p == t.next + k * p;
    } else if t.next > max {
      assert k * p >= 0;
    }
  }

  /** Afterwards a ticker waits for its first multiple that is not due. */
  lemma {:induction false} SettledMultiple(t: Event, max: int)
    requires Positive(t) && t.period.Some?
    ensures Settled(t, max) == Some(t.(next := t.next + |Due(t, max)| * t.period.value))
    decreases max - t.next
  {
    var p := t.period.value;
    if t.next <= max {
      var t' := t.(next := t.next + p);
      SettledMultiple(t', max);
      assert p + |Due(t', max)| * p == (1 + |Due(t', max)|) * p;
    }
  }

  /** A timer fires once, at its deadline, when that is not after max; then it is gone. */
  lemma {:induction false} DueOnce(t: Event, max: int)
    requires t.period.None?
    ensures Due(t, max) == (if t.next <= max then [t.next] else [])
    ensures Settled(t, max) == if t.next <= max then None else Some(t)
  {
  }

  function TimesOf(log: seq<Firing>, id: nat): seq<int> {
    if log == [] then []
    else TimesOf(log[..|log| - 1], id) + if log[|log| - 1].id == id then [log[|log| - 1].time] else []
  }

  lemma {:induction false} TimesSnoc(log: seq<Firing>, f: Firing, id: nat)
    ensures TimesOf(log + [f], id) == TimesOf(log, id) + if f.id == id then [f.time] else []
  {
    assert (log + [f])[..|log|] == log;
  }

  predicate InOrder(log: seq<Firing>) {
    forall i, j :: 0 <= i < j < |log| ==> log[i].time <= log[j].time
  }

  function Times(log: seq<Firing>): (ts: seq<int>)
    ensures |ts| == |log|
  {
    seq(|log|, i requires 0 <= i < |log| => log[i].time)
  }

  /** A clock that shows these values one after the other never goes back. */
  predicate Rises(readings: seq<int>) {
    forall i :: 0 < i < |readings| ==> readings[i - 1] <= readings[i]
  }

  /** The values of the clock during Add: where it was, the time of every tick, and the new time. */
  function Readings(now: int, log: seq<Firing>, max: int): seq<int> {
    [now] + Times(log) + [max]
  }

  lemma {:induction false} ReadingsRise(now: int, log: seq<Firing>, max: int)
    requires InOrder(log) && forall f | f in log :: f.time <= max
    ensures Rises(Readings(now, log, max)) <==> now <= max && forall f | f in log :: f.time >= now
  {
    var r := Readings(now, log, max);
    if Rises(r) {
      assert log != [] ==> r[0] <= r[1] == log[0].time;
      assert r[|r| - 1] == max;
    } else {
      var i :| 0 < i < |r| && r[i - 1] > r[i];
      if i <= |log| {
        assert r[i] == log[i - 1].time && log[i - 1] in log;
      }
    }
  }

  // One step --------------------------------------------------------------------------

  /** The timers after the tick of id: a timer is removed, a ticker moves on. */
  function Ticked(ts: Timers, id: nat): Timers
    requires id in ts
  {
    var t := ts[id];
    if t.period.None? then ts - {id} else ts[id := t.(next := t.next + t.period.value)]
  }

  /** A timer that sorting may put first. */
  predicate Earliest(ts: Timers, ids: set<nat>, id: nat)
    requires ids <= ts.Keys
  {
    id in ids && forall other | other in ids :: ts[id].next <= ts[other].next
  }

  lemma {:induction false} EarliestExists(ts: Timers, ids: set<nat>)
    requires ids <= ts.Keys && ids != {}
    ensures exists id :: Earliest(ts, ids, id)
    decreases |ids|
  {
    var one :| one in ids;
    var rest := ids - {one};
    if rest == {} {
      assert ids == {one};
      assert Earliest(ts, ids, one);
    } else {
      EarliestExists(ts, rest);
      var best :| Earliest(ts, rest, best);
      assert Earliest(ts, ids, if ts[one].next < ts[best].next then one else best);
    }
  }

  /** One tick takes the first due time off its timer, and leaves all others. */
  lemma {:induction false} TickDue(ts: Timers, id: nat, max: int, other: nat)
    requires AllPositive(ts) && id in ts && ts[id].next <= max
    ensures AllPositive(Ticked(ts, id))
    ensures DueOf(ts, other, max) == (if other == id then [ts[id].next] else []) + DueOf(Ticked(ts, id), other, max)
    ensures SettledOf(ts, other, max) == SettledOf(Ticked(ts, id), other, max)
  {
  }

  /** Ticks still due among the timers numbered below n. */
  ghost function Work(ts: Timers, n: nat, max: int): nat
    requires AllPositive(ts)
  {
    if n == 0 then 0 else Work(ts, n - 1, max) + |DueOf(ts, n - 1, max)|
  }

  lemma {:induction false} TickWork(ts: Timers, id: nat, n: nat, max: int)
    requires AllPositive(ts) && id in ts && ts[id].next <= max && AllPositive(Ticked(ts, id))
    ensures Work(Ticked(ts, id), n, max) == Work(ts, n, max) - if id < n then 1 else 0
  {
    if n > 0 {
      TickWork(ts, id, n - 1, max);
      TickDue(ts, id, max, n - 1);
    }
  }

  // A run of ticks --------------------------------------------------------------------

  /** After the ticks in log the timers are ts, where they were ts0 before; all of it is about times up to max. */
  ghost predicate Explains(ts0: Timers, ts: Timers, log: seq<Firing>, max: int) {
    && AllPositive(ts0) && AllPositive(ts)
    && (forall id: nat :: DueOf(ts0, id, max) == TimesOf(log, id) + DueOf(ts, id, max))
    && (forall id: nat :: SettledOf(ts0, id, max) == SettledOf(ts, id, max))
  }

  lemma {:induction false} Shift(a: seq<int>, b: seq<int>, c: seq<int>)
    ensures a + (b + c) == (a + b) + c
  {
  }

  lemma {:induction false} ExplainsOne(ts0: Timers, ts: Timers, log: seq<Firing>, max: int, id: nat, other: nat)
    requires AllPositive(ts0) && AllPositive(ts) && id in ts && ts[id].next <= max && AllPositive(Ticked(ts, id))
    requires DueOf(ts0, other, max) == TimesOf(log, other) + DueOf(ts, other, max)
    ensures DueOf(ts0, other, max) == TimesOf(log + [Firing(id, ts[id].next)], other) + DueOf(Ticked(ts, id), other, max)
  {
    var due := if other == id then [ts[id].next] else [];
    TickDue(ts, id, max, other);
    TimesSnoc(log, Firing(id, ts[id].next), other);
    Shift(TimesOf(log, other), due, DueOf(Ticked(ts, id), other, max));
  }

  lemma {:induction false} ExplainsStep(ts0: Timers, ts: Timers, log: seq<Firing>, max: int, id: nat)
    requires Explains(ts0, ts, log, max) && id in ts && ts[id].next <= max
    ensures AllPositive(Ticked(ts, id)) && Explains(ts0, Ticked(ts, id), log + [Firing(id, ts[id].next)], max)
  {
    TickDue(ts, id, max, id);
    forall other: nat
      ensures DueOf(ts0, other, max) == TimesOf(log + [Firing(id, ts[id].next)], other) + DueOf(Ticked(ts, id), other, max)
    {
      ExplainsOne(ts0, ts, log, max, id, other);
    }
    forall other: nat
      ensures SettledOf(ts0, other, max) == SettledOf(Ticked(ts, id), other, max)
    {
      TickDue(ts, id, max, other);
    }
  }

  /** The ticks are in order and none is later than a tick to come. */
  ghost predicate Ordered(ts: Timers, log: seq<Firing>, max: int) {
    && InOrder(log)
    && (forall f | f in log :: f.time <= max)
    && (forall f, id | f in log && id in ts :: f.time <= ts[id].next)
  }

  lemma {:induction false} OrderedStep(ts: Timers, log: seq<Firing>, max: int, id: nat)
    requires AllPositive(ts) && Ordered(ts, log, max) && Earliest(ts, ts.Keys, id) && ts[id].next <= max
    ensures Ordered(Ticked(ts, id), log + [Firing(id, ts[id].next)], max)
  {
    var f := Firing(id, ts[id].next);
    assert forall i | 0 <= i < |log| :: log[i] in log;
  }

  /** No deadline that is due lies in the past. */
  ghost predicate OnTime(ts: Timers, now: int, max: int) {
    forall id | id in ts && ts[id].next <= max :: ts[id].next >= now
  }

  lemma {:induction false} OnTimeStep(ts: Timers, now: int, max: int, id: nat)
    requires AllPositive(ts) && OnTime(ts, now, max) && id in ts && ts[id].next <= max
    ensures OnTime(Ticked(ts, id), now, max)
  {
  }

  lemma {:induction false} FiredAt(log: seq<Firing>, id: nat, time: int)
    requires time in TimesOf(log, id)
    ensures Firing(id, time) in log
    decreases |log|
  {
    var before, last := log[..|log| - 1], log[|log| - 1];
    if time in TimesOf(before, id) {
      FiredAt(before, id, time);
    }
  }

  /** The clock never goes back during Add exactly when Add does not move it back and no due deadline lies in the past. */
  lemma {:induction false} NeverBack(ts0: Timers, ts: Timers, log: seq<Firing>, now: int, max: int)
    requires Explains(ts0, ts, log, max) && Ordered(ts, log, max) && (forall id | id in ts :: ts[id].next > max)
    requires OnTime(ts0, now, max) ==> forall f | f in log :: f.time >= now
    ensures Rises(Readings(now, log, max)) <==> now <= max && OnTime(ts0, now, max)
  {
    ReadingsRise(now, log, max);
    if id :| id in ts0 && ts0[id].next <= max && ts0[id].next < now {
      assert DueOf(ts0, id, max)[0] == ts0[id].next;
      assert TimesOf(log, id) + [] == TimesOf(log, id);
      FiredAt(log, id, ts0[id].next);
    }
  }

  ghost predicate Progress(ts0: Timers, ts: Timers, log: seq<Firing>, now: int, max: int) {
    && Explains(ts0, ts, log, max) && Ordered(ts, log, max)
    && (OnTime(ts0, now, max) ==> OnTime(ts, now, max) && forall f | f in log :: f.time >= now)
  }

  lemma {:induction false} ProgressStart(ts: Timers, now: int, max: int)
    requires AllPositive(ts)
    ensures Progress(ts, ts, [], now, max)
  {
    forall id: nat
      ensures DueOf(ts, id, max) == TimesOf([], id) + DueOf(ts, id, max)
    {
    }
  }

  lemma {:induction false} ProgressStep(ts0: Timers, ts: Timers, log: seq<Firing>, now: int, max: int, id: nat)
    requires Progress(ts0, ts, log, now, max) && Earliest(ts, ts.Keys, id) && ts[id].next <= max
    ensures Progress(ts0, Ticked(ts, id), log + [Firing(id, ts[id].next)], now, max)
  {
    ExplainsStep(ts0, ts, log, max, id);
    OrderedStep(ts, log, max, id);
    if OnTime(ts, now, max) {
      OnTimeStep(ts, now, max, id);
    }
  }

  /**
   * Every timer due by max fired exactly once, every ticker at each of its multiples, in order of time; the
   * clock went from now to max without going back exactly when max is not before now and no due deadline was.
   */
  ghost predicate AllFired(ts0: Timers, ts: Timers, log: seq<Firing>, now: int, max: int) {
    && AllPositive(ts0)
    && InOrder(log) && (forall f | f in log :: f.time <= max)
    && (forall id: nat :: TimesOf(log, id) == DueOf(ts0, id, max))
    && (forall id: nat :: SettledOf(ts0, id, max) == if id in ts then Some(ts[id]) else None)
    && (Rises(Readings(now, log, max)) <==> now <= max && OnTime(ts0, now, max))
  }

  lemma {:induction false} Finished(ts0: Timers, ts: Timers, log: seq<Firing>, now: int, max: int)
    requires Progress(ts0, ts, log, now, max) && (forall id | id in ts :: ts[id].next > max)
    ensures AllFired(ts0, ts, log, now, max)
  {
    NeverBack(ts0, ts, log, now, max);
    forall id: nat
      ensures TimesOf(log, id) == DueOf(ts0, id, max)
    {
      assert TimesOf(log, id) + [] == TimesOf(log, id);
    }
  }

  /** The ticks and the values of a clock, after the ticks in log. */
  ghost predicate Shows(fired: seq<Firing>, readings: seq<int>, past: seq<Firing>, seen: seq<int>, log: seq<Firing>) {
    fired == past + log && readings == seen + Times(log)
  }

  lemma {:induction false} ShowsStep(fired: seq<Firing>, readings: seq<int>, past: seq<Firing>, seen: seq<int>,
      log: seq<Firing>, f: Firing)
    requires Shows(fired, readings, past, seen, log)
    ensures Shows(fired + [f], readings + [f.time], past, seen, log + [f])
  {
    assert Times(log + [f]) == Times(log) + [f.time];
  }

  // The clock -------------------------------------------------------------------------

  class Mock {
    var now: int
    var timers: Timers
    var nextId: nat
    // Every tick so far, and every value of now.
    var fired: seq<Firing>
    ghost var readings: seq<int>

    constructor ()
      ensures Valid() && now == 0 && timers == map[] && fired == [] && readings == [0]
    {
      now, timers, nextId, fired, readings := 0, map[], 0, [], [0];
    }

    ghost predicate Valid()
      reads this
    {
      && AllPositive(timers) && (forall id | id in timers :: id < nextId)
      && readings != [] && readings[|readings| - 1] == now
    }

    method Timer(d: int) returns (id: nat)
      requires Valid()
      modifies this
      ensures Valid() && id !in old(timers) && timers == old(timers)[id := Event(now + d, None)]
      ensures now == old(now) && fired == old(fired) && readings == old(readings)
    {
      id := nextId;
      timers := timers[id := Event(now + d, None)];
      nextId := nextId + 1;
    }

    method Ticker(d: nat) returns (id: nat)
      requires Valid() && d > 0
      modifies this
      ensures Valid() && id !in old(timers) && timers == old(timers)[id := Event(now + d, Some(d))]
      ensures now == old(now) && fired == old(fired) && readings == old(readings)
    {
      id := nextId;
      timers := timers[id := Event(now + d, Some(d))];
      nextId := nextId + 1;
    }

    /** Stop of a timer or a ticker. */
    method removeClockTimer(id: nat)
      requires Valid()
      modifies this`timers
      ensures Valid() && timers == old(timers) - {id}
    {
      timers := timers - {id};
    }

    /** Runs one of the earliest timers, if it is due. */
    method runNextTimer(max: int) returns (ran: bool)
      requires Valid()
      modifies this
      ensures Valid()
      ensures !ran ==> timers == old(timers) && fired == old(fired) && now == old(now)
      ensures !ran ==> forall id | id in timers :: timers[id].next > max
      ensures ran ==> fired != [] && fired == old(fired) + [fired[|fired| - 1]]
      ensures ran ==> var f := fired[|fired| - 1];
                      && Earliest(old(timers), old(timers).Keys, f.id)
                      && f.time == old(timers)[f.id].next == now <= max
                      && timers == Ticked(old(timers), f.id)
      ensures nextId == old(nextId) && readings == if ran then old(readings) + [now] else old(readings)
    {
      if |timers| == 0 {
        assert timers == map[];
        return false;
      }
      EarliestExists(timers, timers.Keys);
      var id :| id in timers && Earliest(timers, timers.Keys, id);
      var t := timers[id];
      if t.next > max {
        return false;
      }
      now := t.next;
      readings := readings + [now];
      TickDue(timers, id, max, id);
      fired := fired + [Firing(id, now)];
      if t.period.None? {
        removeClockTimer(id);
      } else {
        timers := timers[id := t.(next := now + t.period.value)];
      }
      return true;
    }

    /** One turn of the loop of Add. */
    method turn(t: int, ghost ts0: Timers, ghost log: seq<Firing>, ghost was: int, ghost past: seq<Firing>,
        ghost seen: seq<int>)
        returns (more: bool, ghost log': seq<Firing>)
      requires Valid() && Shows(fired, readings, past, seen, log) && Progress(ts0, timers, log, was, t)
      modifies this
      ensures Valid() && nextId == old(nextId) && Progress(ts0, timers, log', was, t)
      ensures Shows(fired, readings, past, seen, log')
      ensures if more then Work(timers, nextId, t) < old(Work(timers, nextId, t))
              else timers == old(timers) && forall id | id in timers :: timers[id].next > t
    {
      log' := log;
      ghost var before, was', shown := timers, fired, readings;
      more := runNextTimer(t);
      if more {
        ghost var f := fired[|fired| - 1];
        TickWork(before, f.id, nextId, t);
        ProgressStep(ts0, before, log, was, t, f.id);
        ShowsStep(was', shown, past, seen, log, f);
        log' := log + [f];
      }
    }

    method Add(d: int)
      requires Valid()
      modifies this
      ensures Valid() && now == old(now) + d && nextId == old(nextId)
      ensures |fired| >= |old(fired)| && fired[..|old(fired)|] == old(fired)
      ensures AllFired(old(timers), timers, fired[|old(fired)|..], old(now), now)
      ensures readings == old(readings) + Times(fired[|old(fired)|..]) + [now]
    {
      hide Progress, AllFired;
      var t := now + d;
      ghost var log: seq<Firing> := [];
      ProgressStart(timers, now, t);
      var more := true;
      while more
        invariant Valid() && nextId == old(nextId) && Shows(fired, readings, old(fired), old(readings), log)
        invariant Progress(old(timers), timers, log, old(now), t)
        invariant !more ==> forall id | id in timers :: timers[id].next > t
        decreases Work(timers, nextId, t), more
      {
        more, log := turn(t, old(timers), log, old(now), old(fired), old(readings));
      }
      Finished(old(timers), timers, log, old(now), t);
      now := t;
      readings := readings + [now];
    }
  }

  /** A timer set in the past moves the clock back when it fires, although Add goes forward. */
  method PastDeadline() returns (m: Mock)
    ensures fresh(m) && m.now == 1 && !Rises(m.readings)
  {
    m := new Mock();
    var id := m.Timer(-1);
    ghost var ts := m.timers;
    m.Add(1);
    assert m.fired[0..] == m.fired && m.readings == Readings(0, m.fired, 1);
    PastDeadlineFires(ts, m.timers, id, m.fired);
  }

  lemma {:induction false} PastDeadlineFires(ts0: Timers, ts: Timers, id: nat, log: seq<Firing>)
    requires AllFired(ts0, ts, log, 0, 1) && id in ts0 && ts0[id].next == -1
    ensures !Rises(Readings(0, log, 1))
  {
    assert ts0[id].next <= 1;
  }

  /** Going back by a negative duration needs no deadline at all. */
  method NegativeAdd() returns (m: Mock)
    ensures fresh(m) && m.now == -1 && !Rises(m.readings)
  {
    m := new Mock();
    m.Add(-1);
    assert m.fired[0..] == m.fired && m.readings == Readings(0, m.fired, -1);
    assert AllFired(map[], m.timers, m.fired, 0, -1);
  }
}
