/** `debounce(func, wait)`: the returned function keeps one `timeout` slot.
    Each call clears whatever is scheduled and schedules `func` with the new
    arguments `wait` milliseconds later; when the timer fires, the slot is
    cleared and `func` runs with the arguments of that (most recent) call.

    Time is integer milliseconds. The timer runtime is modelled by `Tick(now)`:
    the event loop getting control at time `now`, which fires a scheduled
    invocation whose deadline has been reached. `Debouncer` is the stateful
    object; `Step` and `Run` describe the same behaviour on values, so that
    whole traces of calls and ticks can be reasoned about. */
module Debounce {
  import opened Wrappers

  /** A scheduled invocation: the arguments of the call and when it is due. */
  datatype Pending<A> = Pending(args: A, deadline: int)

  /** What the debounced function sees: a call with arguments at a time, or
      the event loop running timers at a time. */
  datatype Event<A> = Call(args: A, time: int) | Tick(time: int)

  /** The slot after a sequence of events, and the arguments `func` ran with,
      in order. */
  datatype State<A> = State(slot: Option<Pending<A>>, fired: seq<A>)

  /** A tick at `now` runs the scheduled invocation. */
  predicate Due<A>(slot: Option<Pending<A>>, now: int)
  {
    slot.Some? && slot.value.deadline <= now
  }

  /** One event. A call replaces whatever is pending; a tick fires and clears
      a due invocation and leaves anything else alone. */
  function Step<A>(wait: nat, s: State<A>, ev: Event<A>): (r: State<A>)
    ensures s.fired <= r.fired && |r.fired| <= |s.fired| + 1
    ensures |r.fired| == |s.fired| + 1 <==> ev.Tick? && Due(s.slot, ev.time)
  {
    match ev
    case Call(args, time) => State(Some(Pending(args, time + wait)), s.fired)
    case Tick(now) =>
      if Due(s.slot, now) then State(None, s.fired + [s.slot.value.args]) else s
  }

  /** The state after the events, starting with nothing scheduled. */
  function Run<A>(wait: nat, events: seq<Event<A>>): (r: State<A>)
    ensures |r.fired| <= |events|
  {
    if events == [] then State(None, [])
    else Step(wait, Run(wait, events[..|events| - 1]), events[|events| - 1])
  }

  /** Number of calls among the events. */
  function CallCount<A>(events: seq<Event<A>>): (n: nat)
    ensures n <= |events|
  {
    if events == [] then 0
    else CallCount(events[..|events| - 1]) + if events[|events| - 1].Call? then 1 else 0
  }

  /** Index of the last call among the events, if there is one. */
  function LastCall<A>(events: seq<Event<A>>): (r: Option<nat>)
    ensures r.Some? ==> r.value < |events| && events[r.value].Call?
    ensures r.Some? ==> forall k :: r.value < k < |events| ==> events[k].Tick?
    ensures r.None? ==> forall k :: 0 <= k < |events| ==> events[k].Tick?
  {
    if events == [] then None
    else if events[|events| - 1].Call? then Some(|events| - 1)
    else LastCall(events[..|events| - 1])
  }

  lemma RunSnoc<A>(wait: nat, events: seq<Event<A>>, ev: Event<A>)
    ensures Run(wait, events + [ev]) == Step(wait, Run(wait, events), ev)
  {
    assert (events + [ev])[..|events|] == events;
  }

  /** `func` never runs more often than the debounced function was called:
      each run consumes the invocation one call scheduled, and at most one
      invocation is pending. */
  lemma {:induction false} FiresAtMostCalls<A>(wait: nat, events: seq<Event<A>>)
    ensures |Run(wait, events).fired| + (if Run(wait, events).slot.Some? then 1 else 0) <= CallCount(events)
  {
    if events != [] {
      FiresAtMostCalls(wait, events[..|events| - 1]);
    }
  }

  /** The pending invocation, if any, carries the arguments of the most
      recent call and is due `wait` after it: every earlier call was
      cancelled. */
  lemma {:induction false} SlotHoldsLatestCall<A>(wait: nat, events: seq<Event<A>>)
    ensures Run(wait, events).slot.Some? ==>
              LastCall(events).Some?
              && Run(wait, events).slot.value
                 == Pending(events[LastCall(events).value].args, events[LastCall(events).value].time + wait)
  {
    if events != [] {
      var init := events[..|events| - 1];
      SlotHoldsLatestCall(wait, init);
      if events[|events| - 1].Tick? && LastCall(init).Some? {
        assert events[LastCall(init).value] == init[LastCall(init).value];
      }
    }
  }

  /** A tick runs `func` exactly when the deadline of the pending invocation
      has been reached; it then runs with the arguments of the most recent
      call and clears the slot. Otherwise nothing changes. */
  lemma TickFiresLatestCall<A>(wait: nat, events: seq<Event<A>>, now: int)
    ensures var before, after := Run(wait, events), Run(wait, events + [Tick(now)]);
            if Due(before.slot, now) then
              after.slot == None && LastCall(events).Some?
              && after.fired == before.fired + [events[LastCall(events).value].args]
              && now >= events[LastCall(events).value].time + wait
            else after == before
  {
    RunSnoc(wait, events, Tick(now));
    SlotHoldsLatestCall(wait, events);
  }

  /** A call cancels whatever was pending and runs nothing itself. */
  lemma CallReplacesPending<A>(wait: nat, events: seq<Event<A>>, args: A, now: int)
    ensures Run(wait, events + [Call(args, now)]) == State(Some(Pending(args, now + wait)), Run(wait, events).fired)
  {
    RunSnoc(wait, events, Call(args, now));
  }

  /** The event loop checking timers at each of the given times. */
  function TicksBefore<A>(times: seq<int>): seq<Event<A>>
  {
    if times == [] then [] else TicksBefore(times[..|times| - 1]) + [Tick(times[|times| - 1])]
  }

  /** After a call at `now`, ticks earlier than `now + wait` run nothing: a
      burst of calls closer together than `wait` is never interrupted. */
  lemma {:induction false} QuietUntilDeadline<A>(wait: nat, events: seq<Event<A>>, args: A, now: int, times: seq<int>)
    requires forall k :: 0 <= k < |times| ==> times[k] < now + wait
    ensures Run(wait, events + [Call(args, now)] + TicksBefore(times))
            == State(Some(Pending(args, now + wait)), Run(wait, events).fired)
  {
    var prefix := events + [Call(args, now)];
    if times == [] {
      assert prefix + TicksBefore<A>(times) == prefix;
      CallReplacesPending(wait, events, args, now);
    } else {
      var init := times[..|times| - 1];
      QuietUntilDeadline(wait, events, args, now, init);
      assert prefix + TicksBefore(times) == (prefix + TicksBefore(init)) + [Tick(times[|times| - 1])];
      RunSnoc(wait, prefix + TicksBefore(init), Tick(times[|times| - 1]));
    }
  }

  /** Once the quiet period after the last call has passed, the next tick
      runs `func` once, with that call's arguments, and clears the slot. */
  lemma FiresAfterQuietPeriod<A>(wait: nat, events: seq<Event<A>>, args: A, now: int, times: seq<int>, t: int)
    requires forall k :: 0 <= k < |times| ==> times[k] < now + wait
    requires now + wait <= t
    ensures Run(wait, events + [Call(args, now)] + TicksBefore(times) + [Tick(t)])
            == State(None, Run(wait, events).fired + [args])
  {
    QuietUntilDeadline(wait, events, args, now, times);
    RunSnoc(wait, events + [Call(args, now)] + TicksBefore(times), Tick(t));
  }

  /** Every tick comes before the deadline of the latest call preceding
      it: a burst of calls that the timer never interrupts. */
  ghost predicate NoTickDue<A>(wait: nat, events: seq<Event<A>>)
  {
    forall k :: 0 <= k < |events| && events[k].Tick? && LastCall(events[..k]).Some? ==>
      events[k].time < events[LastCall(events[..k]).value].time + wait
  }

  /** During a burst `func` never runs, so the burst leaves nothing but the
      latest call pending. */
  lemma {:induction false} BurstFiresNothing<A>(wait: nat, events: seq<Event<A>>)
    requires NoTickDue(wait, events)
    ensures Run(wait, events).fired == []
  {
    if events != [] {
      var k := |events| - 1;
      var init := events[..k];
      assert NoTickDue(wait, init) by {
        forall k' | 0 <= k' < |init| && init[k'].Tick? && LastCall(init[..k']).Some?
          ensures init[k'].time < init[LastCall(init[..k']).value].time + wait
        {
          assert init[..k'] == events[..k'];
          assert init[k'] == events[k'];
        }
      }
      BurstFiresNothing(wait, init);
      assert events == init + [events[k]];
      RunSnoc(wait, init, events[k]);
      if events[k].Tick? {
        SlotHoldsLatestCall(wait, init);
      }
    }
  }

  /** N calls with no tick due in between, then a tick past the last
      deadline: `func` runs exactly once, with the last call's arguments. */
  lemma BurstFiresOnce<A>(wait: nat, events: seq<Event<A>>, t: int)
    requires NoTickDue(wait, events) && LastCall(events).Some?
    requires events[LastCall(events).value].time + wait <= t
    ensures Run(wait, events + [Tick(t)]) == State(None, [events[LastCall(events).value].args])
  {
    BurstFiresNothing(wait, events);
    SlotHoldsLatestCall(wait, events);
    TickFiresLatestCall(wait, events, t);
    if Run(wait, events).slot.None? {
      SlotEmptyOnlyWithoutCall(wait, events);
    }
  }

  /** Without any run of `func`, the slot is empty only if nothing was called. */
  lemma {:induction false} SlotEmptyOnlyWithoutCall<A>(wait: nat, events: seq<Event<A>>)
    requires Run(wait, events).fired == [] && Run(wait, events).slot.None?
    ensures LastCall(events).None?
  {
    if events != [] {
      var init := events[..|events| - 1];
      RunSnoc(wait, init, events[|events| - 1]);
      assert events == init + [events[|events| - 1]];
      SlotEmptyOnlyWithoutCall(wait, init);
    }
  }

  /** Each call followed by its own tick at `tickTimes[i]`. */
  function Paced<A>(args: seq<A>, times: seq<int>, tickTimes: seq<int>): seq<Event<A>>
    requires |args| == |times| == |tickTimes|
  {
    if args == [] then []
    else
      var n := |args| - 1;
      Paced(args[..n], times[..n], tickTimes[..n]) + [Call(args[n], times[n]), Tick(tickTimes[n])]
  }

  /** Calls spaced further apart than `wait`, each followed by a tick past
      its deadline: `func` runs once per call, with each call's arguments in
      order, and nothing stays pending. */
  lemma {:induction false} SpacedCallsFireEach<A>(wait: nat, args: seq<A>, times: seq<int>, tickTimes: seq<int>)
    requires |args| == |times| == |tickTimes|
    requires forall i :: 0 <= i < |args| ==> times[i] + wait <= tickTimes[i]
    ensures Run(wait, Paced(args, times, tickTimes)) == State(None, args)
  {
    if args != [] {
      var n := |args| - 1;
      var prefix := Paced(args[..n], times[..n], tickTimes[..n]);
      SpacedCallsFireEach(wait, args[..n], times[..n], tickTimes[..n]);
      FiresAfterQuietPeriod(wait, prefix, args[n], times[n], [], tickTimes[n]);
      assert prefix + [Call(args[n], times[n])] + TicksBefore<A>([]) + [Tick(tickTimes[n])]
             == Paced(args, times, tickTimes);
      assert args[..n] + [args[n]] == args;
    }
  }

  /** The debounced function as an object: `timeout` and the arguments the
      scheduled `later` closure captured, as one optional slot. */
  class Debouncer<A> {
    const wait: nat
    var slot: Option<Pending<A>>

    constructor(wait: nat)
      ensures this.wait == wait && slot == None
    {
      this.wait := wait;
      slot := None;
    }

    /** The debounced function itself: clear the pending timer, if any, and
        schedule `func(args)` for `now + wait`. */
    method Call(args: A, now: int)
      modifies this
      ensures slot == Some(Pending(args, now + wait))
      ensures slot == Step(wait, State(old(slot), []), Event.Call(args, now)).slot
    {
      if slot.Some? {
        slot := None;
      }
      slot := Some(Pending(args, now + wait));
    }

    /** The timer runtime at time `now`: when the pending invocation is due,
        `later` clears the slot and `func` runs with the stored arguments. */
    method Tick(now: int) returns (fired: Option<A>)
      modifies this
      ensures Due(old(slot), now) ==> fired == Some(old(slot).value.args) && slot == None
      ensures !Due(old(slot), now) ==> fired == None && slot == old(slot)
      ensures var s := Step(wait, State(old(slot), []), Event.Tick(now));
              slot == s.slot && (if fired.Some? then [fired.value] else []) == s.fired
    {
      if slot.Some? && slot.value.deadline <= now {
        fired := Some(slot.value.args);
        slot := None;
      } else {
        fired := None;
      }
    }
  }
}
