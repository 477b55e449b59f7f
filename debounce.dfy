/**
 * Software debouncing of a button (`Debounced`). One cell, `lastTrigger`, holds
 * the time of the last accepted event. An event is accepted when no event has
 * been accepted yet or at least `period` has elapsed since the last accepted one;
 * accepting records the event's time, rejecting changes nothing.
 *
 * Time is a natural-number clock. A poll of the interrupt, or a call of the
 * interrupt callback, is an event carrying the clock reading at which the gate is
 * checked; the same reading is the one recorded.
 */
module Debounce {
  import opened Options
  import opened Gpio

  /** An interrupt delivered to a callback: when it arrived and the level it reports. */
  datatype Event = Event(time: nat, level: Level)

  /** Time elapsed since `last`, saturating at zero for a reading before it. */
  function Elapsed(last: nat, now: nat): (r: nat)
    ensures r <= now
    ensures now >= last ==> last + r == now
    ensures now < last ==> r == 0
  {
    if now >= last then now - last else 0
  }

  /** The gate: an event at `now` passes unless one was accepted less than `period` ago. */
  predicate Accepts(last: Option<nat>, period: nat, now: nat)
    ensures Accepts(last, period, now) <==> last.None? || period == 0 || last.value + period <= now
  {
    match last
    case None => true
    case Some(t) => !(Elapsed(t, now) < period)
  }

  /** The cell after an event at `now`. */
  function Step(last: Option<nat>, period: nat, now: nat): (r: Option<nat>)
    ensures Accepts(last, period, now) ==> r == Some(now)
    ensures !Accepts(last, period, now) ==> r == last
  {
    if Accepts(last, period, now) then Some(now) else last
  }

  /** The times, in order, of the events of `times` the gate accepts. */
  function Accepted(last: Option<nat>, period: nat, times: seq<nat>): (r: seq<nat>)
    ensures |r| <= |times|
    ensures forall k :: 0 <= k < |r| ==> r[k] in times
    ensures last.None? && times != [] ==> r != [] && r[0] == times[0]
    decreases |times|
  {
    if times == [] then []
    else if Accepts(last, period, times[0]) then [times[0]] + Accepted(Some(times[0]), period, times[1..])
    else Accepted(last, period, times[1..])
  }

  /** The cell after the events of `times`, in order. */
  function Final(last: Option<nat>, period: nat, times: seq<nat>): Option<nat>
    decreases |times|
  {
    if times == [] then last else Final(Step(last, period, times[0]), period, times[1..])
  }

  /** The recorded time, if any, as a sequence of zero or one times. */
  function RecordedTimes(last: Option<nat>): seq<nat> {
    match last
    case None => []
    case Some(t) => [t]
  }

  predicate NonDecreasing(s: seq<nat>) {
    forall i, j :: 0 <= i < j < |s| ==> s[i] <= s[j]
  }

  /** Any two of the times are at least `period` apart. */
  predicate Spaced(s: seq<nat>, period: nat) {
    forall i, j :: 0 <= i < j < |s| ==> s[i] + period <= s[j]
  }

  /** The edge that ends a wait for activation (`true`) or deactivation (`false`). */
  function TriggerFor(active: bool): (r: Trigger)
    ensures r == RisingEdge <==> active
  {
    if active then RisingEdge else FallingEdge
  }

  /** With nothing recorded, the next event is accepted. */
  lemma FirstEventAccepted(period: nat, now: nat)
    ensures Accepts(None, period, now) && Step(None, period, now) == Some(now)
  {
  }

  /** An event less than `period` after the recorded one is rejected and changes nothing. */
  lemma WithinPeriodRejected(t: nat, period: nat, now: nat)
    requires t <= now < t + period
    ensures !Accepts(Some(t), period, now)
    ensures Step(Some(t), period, now) == Some(t)
  {
  }

  /**
   * Presses and releases go through the same cell: once an event is accepted at
   * `t`, any later event within `period` of it is rejected, whichever edge it is.
   */
  lemma SharedWindow(last: Option<nat>, period: nat, t: nat, next: nat)
    requires Accepts(last, period, t)
    requires t <= next < t + period
    ensures !Accepts(Step(last, period, t), period, next)
  {
  }

  /** Bounces never extend the window: rejected events leave the cell as it was. */
  lemma {:induction false} BouncesLeaveCell(last: Option<nat>, period: nat, times: seq<nat>)
    requires forall k :: 0 <= k < |times| ==> !Accepts(last, period, times[k])
    ensures Accepted(last, period, times) == []
    ensures Final(last, period, times) == last
  {
    if times != [] {
      BouncesLeaveCell(last, period, times[1..]);
    }
  }

  /** After a run of rejected events, the first accepted one is recorded. */
  lemma {:induction false} BouncesThenAccept(last: Option<nat>, period: nat, bounces: seq<nat>, t: nat)
    requires forall k :: 0 <= k < |bounces| ==> !Accepts(last, period, bounces[k])
    requires Accepts(last, period, t)
    ensures Accepted(last, period, bounces + [t]) == [t]
    ensures Final(last, period, bounces + [t]) == Some(t)
  {
    if bounces == [] {
      assert bounces + [t] == [t];
    } else {
      assert (bounces + [t])[1..] == bounces[1..] + [t];
      BouncesThenAccept(last, period, bounces[1..], t);
    }
  }

  /** The cell always holds the time of the last accepted event, or its old value if none was. */
  lemma {:induction false} FinalIsLastAccepted(last: Option<nat>, period: nat, times: seq<nat>)
    ensures var acc := Accepted(last, period, times);
      Final(last, period, times) == if acc == [] then last else Some(acc[|acc| - 1])
    decreases |times|
  {
    if times != [] {
      FinalIsLastAccepted(Step(last, period, times[0]), period, times[1..]);
    }
  }

  /**
   * With a clock that never goes back, any two accepted events, and the event
   * recorded before them, are at least `period` apart.
   */
  lemma {:induction false} AcceptedSpaced(last: Option<nat>, period: nat, times: seq<nat>)
    requires NonDecreasing(RecordedTimes(last) + times)
    ensures Spaced(RecordedTimes(last) + Accepted(last, period, times), period)
    decreases |times|
  {
    if times != [] {
      var t, rest := times[0], times[1..];
      var s := RecordedTimes(last) + times;
      var n := |RecordedTimes(last)|;
      if Accepts(last, period, t) {
        assert RecordedTimes(Some(t)) + rest == times;
        assert NonDecreasing(times) by {
          forall i, j | 0 <= i < j < |times| ensures times[i] <= times[j] {
            assert times[i] == s[i + n] && times[j] == s[j + n];
          }
        }
        AcceptedSpaced(Some(t), period, rest);
        var acc := Accepted(last, period, times);
        assert acc == [t] + Accepted(Some(t), period, rest);
        if last.Some? {
          assert last.value <= t by { assert s[0] == last.value && s[1] == t; }
          assert RecordedTimes(last) + acc == [last.value] + acc;
        }
      } else {
        assert NonDecreasing(RecordedTimes(last) + rest) by {
          forall i, j | 0 <= i < j < |RecordedTimes(last) + rest|
            ensures (RecordedTimes(last) + rest)[i] <= (RecordedTimes(last) + rest)[j]
          {
            var i' := if i < n then i else i + 1;
            assert (RecordedTimes(last) + rest)[i] == s[i'];
            assert (RecordedTimes(last) + rest)[j] == s[j + 1];
          }
        }
        AcceptedSpaced(last, period, rest);
      }
    }
  }

  class Debounced {
    /** The debounce period. */
    const period: nat
    /** The time of the last accepted event, shared by presses and releases. */
    var lastTrigger: Option<nat>
    /** The edge the button's pin is armed for by a blocking wait. */
    var interrupt: Option<Trigger>
    /** Whether a callback is registered, and for activation (`true`) or deactivation. */
    var handler: Option<bool>
    /** The levels passed to the user's callback, one per accepted interrupt. */
    var fired: seq<Level>

    /**
     * Wraps a button with debounce period `duration`; nothing is recorded yet.
     * `armed` and `registered` are the wrapped button's interrupt edge and
     * callback registration, which wrapping leaves as they are.
     */
    constructor Debounce(duration: nat, armed: Option<Trigger>, registered: Option<bool>)
      ensures period == duration && lastTrigger == None
      ensures interrupt == armed && handler == registered && fired == []
    {
      period := duration;
      lastTrigger := None;
      interrupt := armed;
      handler := registered;
      fired := [];
    }

    /**
     * Blocks until a poll passes the gate, then records that poll's time. `polls`
     * are the clock readings at which successive polls return; `woke` is the index
     * of the poll that ends the wait, or None if they all bounce.
     */
    method WaitFor(polls: seq<nat>, active: bool) returns (woke: Option<nat>)
      modifies this`lastTrigger, this`interrupt
      ensures interrupt == Some(TriggerFor(active))
      ensures woke.Some? ==> woke.value < |polls| && Accepts(old(lastTrigger), period, polls[woke.value])
      ensures woke.Some? ==> forall k :: 0 <= k < woke.value ==> !Accepts(old(lastTrigger), period, polls[k])
      ensures woke.Some? ==> lastTrigger == Some(polls[woke.value])
      ensures woke.Some? ==> Accepted(old(lastTrigger), period, polls[..woke.value + 1]) == [polls[woke.value]]
      ensures woke.None? ==> forall k :: 0 <= k < |polls| ==> !Accepts(old(lastTrigger), period, polls[k])
      ensures woke.None? ==> lastTrigger == old(lastTrigger)
    {
      interrupt := Some(TriggerFor(active));
      woke := None;
      var i := 0;
      while i < |polls|
        invariant 0 <= i <= |polls|
        invariant lastTrigger == old(lastTrigger)
        invariant forall k :: 0 <= k < i ==> !Accepts(lastTrigger, period, polls[k])
      {
        if Accepts(lastTrigger, period, polls[i]) {
          woke := Some(i);
          break;
        }
        i := i + 1;
      }
      if woke.Some? {
        assert polls[..i + 1] == polls[..i] + [polls[i]];
        BouncesThenAccept(lastTrigger, period, polls[..i], polls[i]);
        lastTrigger := Some(polls[i]);
      }
    }

    /** Waits for a press: the pin is armed for a rising edge. */
    method WaitForPress(polls: seq<nat>) returns (woke: Option<nat>)
      modifies this`lastTrigger, this`interrupt
      ensures interrupt == Some(RisingEdge)
      ensures woke.Some? ==> woke.value < |polls| && lastTrigger == Some(polls[woke.value])
      ensures woke.Some? ==> Accepted(old(lastTrigger), period, polls[..woke.value + 1]) == [polls[woke.value]]
      ensures woke.None? ==> Accepted(old(lastTrigger), period, polls) == [] && lastTrigger == old(lastTrigger)
    {
      woke := WaitFor(polls, true);
      if woke.None? {
        BouncesLeaveCell(old(lastTrigger), period, polls);
      }
    }

    /** Waits for a release: the pin is armed for a falling edge. */
    method WaitForRelease(polls: seq<nat>) returns (woke: Option<nat>)
      modifies this`lastTrigger, this`interrupt
      ensures interrupt == Some(FallingEdge)
      ensures woke.Some? ==> woke.value < |polls| && lastTrigger == Some(polls[woke.value])
      ensures woke.Some? ==> Accepted(old(lastTrigger), period, polls[..woke.value + 1]) == [polls[woke.value]]
      ensures woke.None? ==> Accepted(old(lastTrigger), period, polls) == [] && lastTrigger == old(lastTrigger)
    {
      woke := WaitFor(polls, false);
      if woke.None? {
        BouncesLeaveCell(old(lastTrigger), period, polls);
      }
    }

    /** Registers the gated callback for activation (`true`) or deactivation (`false`). */
    method ActionOn(active: bool)
      modifies this`handler
      ensures handler == Some(active)
    {
      handler := Some(active);
    }

    method WhenPressed()
      modifies this`handler
      ensures handler == Some(true)
    {
      ActionOn(true);
    }

    method WhenReleased()
      modifies this`handler
      ensures handler == Some(false)
    {
      ActionOn(false);
    }

    /**
     * The registered callback, run for one interrupt: within the period it returns
     * without calling the user's action; otherwise it records the interrupt's time
     * and then passes its level to the action.
     */
    method OnInterrupt(ev: Event) returns (ran: bool)
      requires handler.Some?
      modifies this`lastTrigger, this`fired
      ensures ran == Accepts(old(lastTrigger), period, ev.time)
      ensures lastTrigger == Step(old(lastTrigger), period, ev.time)
      ensures fired == if ran then old(fired) + [ev.level] else old(fired)
    {
      if lastTrigger.Some? {
        if Elapsed(lastTrigger.value, ev.time) < period {
          return false;
        }
      }
      lastTrigger := Some(ev.time);
      fired := fired + [ev.level];
      ran := true;
    }
  }
}
