/**
 Alarms on the 32-bit tick counter. The firmware keeps a time modulo 2^32 and a roll-over flag; the
 ghost state counts the same ticks without bound.
 */
module Alarms {
  import opened Bytes

  type Callback = nat -> u32

  /** The tick of the k-th callback: the first one, and then each distance that a callback asks for. */
  function Schedule(first: nat, callback: Callback, k: nat): (tick: nat) {
    if k == 0 then first else Schedule(first, callback, k - 1) + callback(k - 1)
  }

  function Epoch(tick: nat): (e: nat) {
    tick / TWO_32
  }

  /** Between ticks `now` and `now + 1`, time and flag stand for the tick `due`. */
  predicate Stands(time: nat, rollover: bool, due: nat, now: nat) {
    && due > now && time == due % TWO_32
    && Epoch(due) == if rollover then Epoch(now) + 1 else Epoch(now + 1)
  }

  /** The test that alt_tick() makes at tick `now` is right, and what it leaves stands for the same tick. */
  lemma TickDecides(time: nat, rollover: bool, due: nat, now: nat)
    requires now > 0 && Stands(time, rollover, due, now - 1)
    ensures var flag := rollover && now % TWO_32 != 0;
            && (time <= now % TWO_32 && !flag <==> due == now)
            && (due != now ==> Stands(time, flag, due, now))
  {
    var n := now % TWO_32;
    assert now == Epoch(now) * TWO_32 + n && due == Epoch(due) * TWO_32 + time;
    if n != 0 {
      assert Epoch(now - 1) == Epoch(now);
    } else {
      assert Epoch(now - 1) + 1 == Epoch(now);
    }
    if due != now && !rollover {
      assert n < time;
      assert Epoch(now + 1) == Epoch(now);
    }
  }

  /** A new distance below 2^32, counted from the tick of the callback. */
  lemma RearmStands(time: nat, now: nat, c: nat)
    requires time == now % TWO_32 && 0 < c < TWO_32
    ensures var next := (time + c) % TWO_32; Stands(next, next < time, now + c, now)
  {
    var next := (time + c) % TWO_32;
    assert now == Epoch(now) * TWO_32 + time;
    if time + c < TWO_32 {
      assert Epoch(now + c) == Epoch(now) == Epoch(now + 1);
    } else {
      assert next == time + c - TWO_32;
      assert Epoch(now + c) == Epoch(now) + 1;
    }
  }

  /**
   A registration stands for the tick `nticks + 1` later exactly unless `nticks` is the largest 32-bit
   value and the counter is not just about to wrap.
   */
  lemma StartStandsIff(nticks: u32, now: nat)
    ensures var current := now % TWO_32;
            var time := (nticks + current + 1) % TWO_32;
            Stands(time, time < current, now + nticks + 1, now) <==> nticks != TWO_32 - 1 || current == TWO_32 - 1
  {
    var current := now % TWO_32;
    var time := (nticks + current + 1) % TWO_32;
    if nticks != TWO_32 - 1 {
      RearmStands(current, now, nticks + 1);
    } else {
      assert time == current && now + TWO_32 == (Epoch(now) + 1) * TWO_32 + current;
      assert Epoch(now + TWO_32) == Epoch(now) + 1;
      assert now == Epoch(now) * TWO_32 + current;
      if current != TWO_32 - 1 {
        assert Epoch(now + 1) == Epoch(now);
      } else {
        assert Epoch(now + 1) == Epoch(now) + 1;
      }
    }
  }

  /** The fields of an alarm, with the callbacks that have run. */
  datatype Snapshot = Snapshot(time: nat, rollover: bool, callback: Callback, calls: nat, first: nat, history: seq<nat>)

  /** The callbacks ran at their ticks, and time and flag stand for the next one. */
  ghost predicate IsArmed(p: Snapshot, now: nat) {
    && |p.history| == p.calls && (forall k :: 0 <= k < p.calls ==> p.history[k] == Schedule(p.first, p.callback, k))
    && Stands(p.time, p.rollover, Schedule(p.first, p.callback, p.calls), now)
  }

  /** One alarm, with the ticks at which its callback has run since it was started. */
  class Alarm {
    var time: nat
    var rollover: bool
    var callback: Callback
    var calls: nat
    ghost var first: nat
    ghost var history: seq<nat>
    ghost var exact: bool  // whether the registration stood for its tick

    constructor (callback: Callback)
      ensures OnSchedule()
    {
      this.callback := callback;
      time, rollover, calls, first, history, exact := 0, false, 0, 0, [], false;
    }

    /** The tick of the next callback. */
    ghost function Due(): (tick: nat)
      reads this
    {
      Schedule(first, callback, calls)
    }

    /** Every callback so far ran at its tick. */
    ghost predicate OnSchedule()
      reads this
    {
      |history| == calls && forall k :: 0 <= k < calls ==> history[k] == Schedule(first, callback, k)
    }

    /** The fields stand for the tick that is due. */
    ghost predicate Armed(now: nat)
      reads this
    {
      IsArmed(Fields(), now)
    }

    /** A registration that is already past its time. */
    ghost predicate Premature(now: nat)
      reads this
    {
      time == now % TWO_32 && !rollover && now % TWO_32 != TWO_32 - 1
    }

    ghost function Fields(): (p: Snapshot)
      reads this
    {
      Snapshot(time, rollover, callback, calls, first, history)
    }

    /** What one tick does to the fields of any alarm of the list. */
    ghost predicate Stepped(was: Snapshot, now: nat, stopped: bool)
      reads this
    {
      var flag := was.rollover && now % TWO_32 != 0;
      && callback == was.callback && first == was.first
      && if was.time <= now % TWO_32 && !flag then
           var c := callback(was.calls);
           && history == was.history + [now] && calls == was.calls + 1 && (stopped <==> c == 0)
           && (c != 0 ==> time == (was.time + c) % TWO_32 && (rollover <==> time < now % TWO_32))
         else
           history == was.history && calls == was.calls && !stopped && time == was.time && rollover == flag
    }

    /** What one tick does to an alarm that was armed: it runs exactly if it is due. */
    ghost predicate Advanced(was: Snapshot, now: nat, stopped: bool)
      reads this
      ensures Advanced(was, now, stopped) && !stopped ==> Armed(now)
    {
      && callback == was.callback && first == was.first && OnSchedule()
      && (if Schedule(first, callback, was.calls) == now then
            history == was.history + [now] && (stopped <==> callback(was.calls) == 0)
          else
            history == was.history && !stopped)
      && (!stopped ==> Armed(now))
    }

    /** The registration's part of alt_alarm_start(). */
    method Set(nticks: u32, callback: Callback, current: u32, ghost now: nat)
      requires current == now % TWO_32
      modifies this
      ensures this.callback == callback && history == [] && Due() == now + nticks + 1
      ensures exact <==> nticks != TWO_32 - 1 || current == TWO_32 - 1
      ensures if exact then Armed(now) else Premature(now)
    {
      this.callback := callback;
      calls, history, first := 0, [], now + nticks + 1;
      time := (nticks + current + 1) % TWO_32;
      rollover := time < current;
      exact := nticks != TWO_32 - 1 || current == TWO_32 - 1;
      StartStandsIff(nticks, now);
    }

    /** The callback and the next deadline. */
    method Fire(nticks: u32, ghost now: nat) returns (stopped: bool)
      modifies this
      ensures callback == old(callback) && first == old(first) && exact == old(exact) && history == old(history) + [now]
      ensures calls == old(calls) + 1 && (stopped <==> callback(old(calls)) == 0)
      ensures !stopped ==> time == (old(time) + callback(old(calls))) % TWO_32 && (rollover <==> old(rollover) || time < nticks)
    {
      var nextCallback := callback(calls);
      calls, history := calls + 1, history + [now];
      if nextCallback == 0 {
        return true;
      }
      time := (time + nextCallback) % TWO_32;
      if time < nticks {
        rollover := true;
      }
      stopped := false;
    }

    /** On an armed alarm, the step of the loop is the step of its schedule. */
    lemma StepAdvances(was: Snapshot, now: nat, stopped: bool)
      requires now > 0 && Stepped(was, now, stopped) && IsArmed(was, now - 1)
      ensures Advanced(was, now, stopped)
    {
      hide Stands;
      TickDecides(was.time, was.rollover, Schedule(was.first, was.callback, was.calls), now);
      if Schedule(was.first, was.callback, was.calls) == now && !stopped {
        DueIsNow(was, now);
        RearmStands(was.time, now, callback(was.calls));
      }
    }

    lemma DueIsNow(was: Snapshot, now: nat)
      requires now > 0 && IsArmed(was, now - 1) && Schedule(was.first, was.callback, was.calls) == now
      ensures was.time == now % TWO_32
    {
    }

    /** The body of the loop of alt_tick(). */
    method Process(nticks: u32, ghost now: nat) returns (stopped: bool)
      requires now > 0 && nticks == now % TWO_32
      requires exact ==> Armed(now - 1)
      modifies this
      ensures Settled(this, old(Fields()), old(exact), old(Premature(now - 1)), now, stopped)
    {
      hide Advanced, IsArmed;
      ghost var was := Fields();
      if rollover && nticks == 0 {
        rollover := false;
      }
      if time <= nticks && !rollover {
        stopped := Fire(nticks, now);
      } else {
        stopped := false;
      }
      if exact {
        StepAdvances(was, now, stopped);
      }
    }
  }

  /** What a tick has done to an alarm, given how it was before. */
  ghost predicate Settled(a: Alarm, was: Snapshot, exact: bool, premature: bool, now: nat, stopped: bool)
    reads a
  {
    && a.exact == exact && a.Stepped(was, now, stopped)
    && (exact ==> a.Advanced(was, now, stopped))
    && (premature ==> a.history == was.history + [now])
  }

  predicate Distinct(list: seq<Alarm>) {
    forall i, j :: 0 <= i < j < |list| ==> list[i] != list[j]
  }

  /** The list without one alarm, the others in their order. */
  function Without(list: seq<Alarm>, alarm: Alarm): (r: seq<Alarm>)
    ensures forall i :: 0 <= i < |r| ==> r[i] in list && r[i] != alarm
    ensures forall i :: 0 <= i < |list| && list[i] != alarm ==> list[i] in r
    ensures Distinct(list) ==> Distinct(r)
    ensures alarm !in list ==> r == list
  {
    if list == [] then []
    else
      var rest := Without(list[1..], alarm);
      if list[0] == alarm then rest else [list[0]] + rest
  }

  /** The results 0, -EINVAL and -ENOTSUP. */
  datatype StartStatus = Started | NoAlarm | NoClock

  /** The tick counter and the list of registered alarms. */
  class Clock {
    var nticks: u32
    var tickRate: u32
    var alarms: seq<Alarm>
    ghost var now: nat

    /** All alarms of the list that were registered in a representable way stand for their next tick. */
    ghost predicate Valid()
      reads this, alarms
    {
      nticks == now % TWO_32 && Distinct(alarms) && forall a :: a in alarms ==> a.exact ==> a.Armed(now)
    }

    constructor (tickRate: u32)
      ensures Valid() && now == 0 && alarms == [] && this.tickRate == tickRate
    {
      nticks, this.tickRate, alarms, now := 0, tickRate, [], 0;
    }

    /** alt_alarm_start(). The alarm is not registered yet. */
    method Start(alarm: Alarm?, nticks: u32, callback: Callback) returns (r: StartStatus)
      requires Valid() && (alarm != null ==> alarm !in alarms)
      modifies this`alarms, if alarm == null then {} else {alarm}
      ensures Valid()
      ensures tickRate == 0 ==> r == NoClock
      ensures tickRate != 0 && alarm == null ==> r == NoAlarm
      ensures r != Started ==> alarms == old(alarms) && (alarm != null ==> unchanged(alarm))
      ensures tickRate != 0 && alarm != null ==>
                && r == Started && alarms == [alarm] + old(alarms)
                && alarm.callback == callback && alarm.history == [] && alarm.Due() == now + nticks + 1
                && (alarm.exact <==> nticks != TWO_32 - 1 || now % TWO_32 == TWO_32 - 1)
                && if alarm.exact then alarm.Armed(now) else alarm.Premature(now)
    {
      if tickRate == 0 {
        return NoClock;
      }
      if alarm == null {
        return NoAlarm;
      }
      alarm.Set(nticks, callback, this.nticks, now);
      alarms := [alarm] + alarms;
      r := Started;
    }

    /** alt_alarm_stop(). */
    method Stop(alarm: Alarm)
      requires Valid()
      modifies this`alarms
      ensures Valid() && alarms == Without(old(alarms), alarm)
    {
      alarms := Without(alarms, alarm);
    }

    /** The loop of alt_tick() over the alarms that were registered when the tick came. */
    method Sweep(list: seq<Alarm>)
      requires list == alarms && Distinct(alarms) && now > 0 && nticks == now % TWO_32
      requires forall a :: a in alarms && a.exact ==> a.Armed(now - 1)
      modifies this`alarms, alarms
      ensures Distinct(alarms) && forall a :: a in alarms ==> a in list
      ensures forall a :: a in list && a in alarms ==>
                Settled(a, old(a.Fields()), old(a.exact), old(a.Premature(now - 1)), now, false)
      ensures forall a :: a in list && a !in alarms ==>
                Settled(a, old(a.Fields()), old(a.exact), old(a.Premature(now - 1)), now, true)
    {
      hide Settled, Alarm.Armed, Alarm.Premature, Alarm.Fields, Without;
      for i := 0 to |list|
        invariant Distinct(alarms) && forall a :: a in alarms ==> a in list
        invariant forall j :: i <= j < |list| ==> list[j] in alarms && unchanged(list[j])
        invariant forall j :: 0 <= j < i && list[j] in alarms ==>
          Settled(list[j], old(list[j].Fields()), old(list[j].exact), old(list[j].Premature(now - 1)), now, false)
        invariant forall j :: 0 <= j < i && list[j] !in alarms ==>
          Settled(list[j], old(list[j].Fields()), old(list[j].exact), old(list[j].Premature(now - 1)), now, true)
      {
        var stopped := list[i].Process(nticks, now);
        if stopped {
          alarms := Without(alarms, list[i]);
        }
      }
    }

    /**
     alt_tick(). Every alarm that stands for its tick runs exactly if it is due, and leaves the list
     exactly if its callback then returns 0; a premature one runs at once.
     */
    method Tick()
      requires Valid()
      modifies this`nticks, this`now, this`alarms, alarms
      ensures Valid() && now == old(now) + 1
      ensures forall a :: a in alarms ==> a in old(alarms)
      ensures forall a :: a in old(alarms) ==>
                if a in alarms then a.Stepped(old(a.Fields()), now, false) else a.Stepped(old(a.Fields()), now, true)
      ensures forall a :: a in old(alarms) && old(a.exact) ==>
                if a in alarms then a.Advanced(old(a.Fields()), now, false) else a.Advanced(old(a.Fields()), now, true)
      ensures forall a :: a in old(alarms) && old(a.Premature(now)) ==> a.history == old(a.history) + [now]
    {
      hide Alarm.Armed, Alarm.Advanced, Alarm.Stepped;
      nticks, now := (nticks + 1) % TWO_32, now + 1;
      Sweep(alarms);
    }
  }
}
