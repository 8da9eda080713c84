/**
  Trailing-edge debouncing (`debounce` in code/index.js).

  The wrapper keeps at most one pending timer. Every call cancels it and
  schedules a new one that will run `fn` with that call's arguments once
  `delay` has passed. Here the timer is the value `pending`, and the event
  loop running a due timer is an explicit step, a tick at time `now`.
 */
module Debounce {
  import opened Options

  /** A scheduled, not yet run, invocation of `fn`. */
  datatype Timer<A> = Timer(deadline: int, args: A)

  /** What the wrapper sees: a call at some time with its arguments, or a turn
      of the event loop at some time in which a due timer may run. */
  datatype Event<A> = Called(at: int, args: A) | Ticked(at: int)

  /** The wait `setTimeout` applies to `delay`: a negative delay waits for 0. */
  function Wait(delay: int): nat
  {
    if delay < 0 then 0 else delay
  }

  /** Whether the pending timer, if any, is due at `now`. */
  predicate Due<A>(pending: Option<Timer<A>>, now: int)
  {
    pending.Some? && now >= pending.value.deadline
  }

  /** The pending slot after one event. */
  function Next<A>(wait: nat, pending: Option<Timer<A>>, e: Event<A>): Option<Timer<A>>
  {
    match e
    case Called(t, a) => Some(Timer(t + wait, a))
    case Ticked(t) => if Due(pending, t) then None else pending
  }

  /** The arguments `fn` receives during one event. */
  function Out<A>(pending: Option<Timer<A>>, e: Event<A>): seq<A>
  {
    if e.Ticked? && Due(pending, e.at) then [pending.value.args] else []
  }

  /** The pending slot after the events `events`. */
  function PendingAfter<A>(wait: nat, pending: Option<Timer<A>>, events: seq<Event<A>>): Option<Timer<A>>
    decreases |events|
  {
    if events == [] then pending
    else PendingAfter(wait, Next(wait, pending, events[0]), events[1..])
  }

  /** The arguments of every invocation of `fn` during `events`, in order. */
  function Delivered<A>(wait: nat, pending: Option<Timer<A>>, events: seq<Event<A>>): seq<A>
    decreases |events|
  {
    if events == [] then []
    else Out(pending, events[0]) + Delivered(wait, Next(wait, pending, events[0]), events[1..])
  }

  /** Whether some tick in `events` reaches `deadline` before the next call. */
  predicate ReachedBeforeNextCall<A>(events: seq<Event<A>>, deadline: int)
    decreases |events|
  {
    if events == [] then false
    else match events[0]
      case Called(_, _) => false
      case Ticked(t) => t >= deadline || ReachedBeforeNextCall(events[1..], deadline)
  }

  /** Reference definition of what `fn` receives, call by call: a call's
      arguments are delivered, once, exactly when the clock reaches that call's
      deadline before the next call; otherwise the call is superseded. */
  function Survivors<A>(wait: nat, events: seq<Event<A>>): seq<A>
    decreases |events|
  {
    if events == [] then []
    else match events[0]
      case Ticked(_) => Survivors(wait, events[1..])
      case Called(t, a) =>
        (if ReachedBeforeNextCall(events[1..], t + wait) then [a] else []) + Survivors(wait, events[1..])
  }

  /** Ticks at the given times, with no calls between them. */
  function Ticks<A>(times: seq<int>): (ev: seq<Event<A>>)
    ensures |ev| == |times|
    ensures forall k :: 0 <= k < |ev| ==> ev[k] == Ticked(times[k])
  {
    seq(|times|, k requires 0 <= k < |times| => Ticked(times[k]))
  }

  /** The machine delivers exactly what the reference definition says, after
      whatever was pending at the start had its own chance to run. */
  lemma {:induction false} DeliveredMatchesSurvivors<A>(wait: nat, pending: Option<Timer<A>>, events: seq<Event<A>>)
    ensures Delivered(wait, pending, events)
         == (if pending.Some? && ReachedBeforeNextCall(events, pending.value.deadline)
             then [pending.value.args] else [])
          + Survivors(wait, events)
    decreases |events|
  {
    if events != [] {
      DeliveredMatchesSurvivors(wait, Next(wait, pending, events[0]), events[1..]);
    }
  }

  /** A fresh wrapper, with nothing pending, delivers exactly the reference's calls. */
  lemma FreshDeliversSurvivors<A>(wait: nat, events: seq<Event<A>>)
    ensures Delivered(wait, None, events) == Survivors(wait, events)
  {
    DeliveredMatchesSurvivors(wait, None, events);
  }

  /** Running two batches of events one after the other is running their concatenation. */
  lemma {:induction false} AppendEvents<A>(wait: nat, pending: Option<Timer<A>>, xs: seq<Event<A>>, ys: seq<Event<A>>)
    ensures PendingAfter(wait, pending, xs + ys) == PendingAfter(wait, PendingAfter(wait, pending, xs), ys)
    ensures Delivered(wait, pending, xs + ys)
         == Delivered(wait, pending, xs) + Delivered(wait, PendingAfter(wait, pending, xs), ys)
    decreases |xs|
  {
    if xs == [] {
      assert xs + ys == ys;
    } else {
      assert (xs + ys)[0] == xs[0];
      assert (xs + ys)[1..] == xs[1..] + ys;
      AppendEvents(wait, Next(wait, pending, xs[0]), xs[1..], ys);
    }
  }

  /** The effect of one more event on the pending slot and on what `fn` received. */
  lemma OneMoreEvent<A>(wait: nat, pending: Option<Timer<A>>, events: seq<Event<A>>, e: Event<A>)
    ensures var p := PendingAfter(wait, pending, events);
      && PendingAfter(wait, pending, events + [e]) == Next(wait, p, e)
      && Delivered(wait, pending, events + [e]) == Delivered(wait, pending, events) + Out(p, e)
  {
    AppendEvents(wait, pending, events, [e]);
    var p := PendingAfter(wait, pending, events);
    assert [e][1..] == [];
    assert Delivered(wait, p, [e]) == Out(p, e) + Delivered<A>(wait, Next(wait, p, e), []);
  }

  /** Ticks that all come before the deadline of the pending timer leave it
      pending and deliver nothing. */
  lemma {:induction false} EarlyTicks<A>(wait: nat, tm: Timer<A>, times: seq<int>)
    requires forall k :: 0 <= k < |times| ==> times[k] < tm.deadline
    ensures PendingAfter(wait, Some(tm), Ticks(times)) == Some(tm)
    ensures Delivered(wait, Some(tm), Ticks(times)) == []
    decreases |times|
  {
    if times != [] {
      EarlyTicks(wait, tm, times[1..]);
      assert Ticks<A>(times)[1..] == Ticks(times[1..]);
    }
  }

  /** Among ticks alone, a deadline is reached exactly when some tick is at or after it. */
  lemma {:induction false} ReachedAmongTicks<A>(times: seq<int>, deadline: int)
    ensures ReachedBeforeNextCall(Ticks<A>(times), deadline)
        <==> exists k :: 0 <= k < |times| && times[k] >= deadline
    decreases |times|
  {
    if times != [] {
      ReachedAmongTicks<A>(times[1..], deadline);
      assert Ticks<A>(times)[1..] == Ticks(times[1..]);
      if exists k :: 0 <= k < |times| && times[k] >= deadline {
        var k :| 0 <= k < |times| && times[k] >= deadline;
        if k > 0 { assert times[1..][k - 1] >= deadline; }
      }
    }
  }

  /** No calls are delivered among ticks alone. */
  lemma {:induction false} NoSurvivorsAmongTicks<A>(wait: nat, times: seq<int>)
    ensures Survivors(wait, Ticks<A>(times)) == []
    decreases |times|
  {
    if times != [] {
      NoSurvivorsAmongTicks<A>(wait, times[1..]);
      assert Ticks<A>(times)[1..] == Ticks(times[1..]);
    }
  }

  /** A final call followed by quiet: whatever was pending before is dropped, and
      `fn` runs exactly once, with that call's arguments, if the clock reaches
      the call's time plus the wait, and not at all otherwise. */
  lemma QuietAfterLastCall<A>(wait: nat, pending: Option<Timer<A>>, t: int, a: A, times: seq<int>)
    ensures Delivered(wait, pending, [Called(t, a)] + Ticks(times))
         == if exists k :: 0 <= k < |times| && times[k] >= t + wait then [a] else []
  {
    var ev := [Called(t, a)] + Ticks<A>(times);
    assert ev[0] == Called(t, a) && ev[1..] == Ticks(times);
    DeliveredMatchesSurvivors(wait, Some(Timer(t + wait, a)), Ticks(times));
    ReachedAmongTicks<A>(times, t + wait);
    NoSurvivorsAmongTicks<A>(wait, times);
  }

  /** After the most recent call, the pending slot holds that call's arguments
      with its time plus the wait as deadline, until a tick reaches it, and is
      empty from then on. Nothing earlier matters. */
  lemma PendingIsLastCall<A>(wait: nat, pending: Option<Timer<A>>, before: seq<Event<A>>, t: int, a: A, times: seq<int>)
    ensures PendingAfter(wait, pending, before + [Called(t, a)] + Ticks(times))
         == if exists k :: 0 <= k < |times| && times[k] >= t + wait then None else Some(Timer(t + wait, a))
  {
    AppendEvents(wait, pending, before + [Called(t, a)], Ticks(times));
    OneMoreEvent(wait, pending, before, Called(t, a));
    PendingAmongTicks(wait, Timer(t + wait, a), times);
  }

  /** Among ticks alone, a pending timer stays until a tick reaches its deadline. */
  lemma {:induction false} PendingAmongTicks<A>(wait: nat, tm: Timer<A>, times: seq<int>)
    ensures PendingAfter(wait, Some(tm), Ticks(times))
         == if exists k :: 0 <= k < |times| && times[k] >= tm.deadline then None else Some(tm)
    decreases |times|
  {
    if times != [] {
      var ev := Ticks<A>(times);
      assert ev[1..] == Ticks(times[1..]);
      if times[0] >= tm.deadline {
        NoneAmongTicks<A>(wait, times[1..]);
      } else {
        PendingAmongTicks(wait, tm, times[1..]);
        if exists k :: 0 <= k < |times| && times[k] >= tm.deadline {
          var k :| 0 <= k < |times| && times[k] >= tm.deadline;
          assert times[1..][k - 1] >= tm.deadline;
        }
      }
    }
  }

  /** Among ticks alone, an empty slot stays empty. */
  lemma {:induction false} NoneAmongTicks<A>(wait: nat, times: seq<int>)
    ensures PendingAfter(wait, None, Ticks<A>(times)) == None
    decreases |times|
  {
    if times != [] {
      NoneAmongTicks<A>(wait, times[1..]);
      assert Ticks<A>(times)[1..] == Ticks(times[1..]);
    }
  }

  /** A call superseded by the next one before its deadline leaves no trace:
      neither it nor the ticks before the next call deliver anything, and the
      run delivers as if that call and those ticks had never happened. */
  lemma SupersededCallLeavesNoTrace<A>(wait: nat, pending: Option<Timer<A>>, before: seq<Event<A>>,
                                      t: int, a: A, times: seq<int>, t2: int, a2: A, after: seq<Event<A>>)
    requires forall k :: 0 <= k < |times| ==> times[k] < t + wait
    ensures Delivered(wait, pending, before + [Called(t, a)] + Ticks(times) + [Called(t2, a2)] + after)
         == Delivered(wait, pending, before + [Called(t2, a2)] + after)
  {
    var tm := Timer(t + wait, a);
    var mid := Ticks<A>(times);
    var last := [Called(t2, a2)] + after;
    var q := PendingAfter(wait, pending, before);
    assert before + [Called(t, a)] + mid + [Called(t2, a2)] + after == before + ([Called(t, a)] + (mid + last));
    assert before + [Called(t2, a2)] + after == before + last;
    AppendEvents(wait, pending, before, [Called(t, a)] + (mid + last));
    AppendEvents(wait, pending, before, last);
    calc {
      Delivered(wait, q, [Called(t, a)] + (mid + last));
      { CallFirst(wait, q, t, a, mid + last); }
      Delivered(wait, Some(tm), mid + last);
      { AppendEvents(wait, Some(tm), mid, last); EarlyTicks(wait, tm, times); }
      Delivered(wait, Some(tm), last);
      { CallFirst(wait, Some(tm), t2, a2, after); CallFirst(wait, q, t2, a2, after); }
      Delivered(wait, q, last);
    }
  }

  /** A call first in line replaces whatever was pending and delivers nothing itself. */
  lemma CallFirst<A>(wait: nat, pending: Option<Timer<A>>, t: int, a: A, rest: seq<Event<A>>)
    ensures Delivered(wait, pending, [Called(t, a)] + rest) == Delivered(wait, Some(Timer(t + wait, a)), rest)
  {
    var ev := [Called(t, a)] + rest;
    assert ev[0] == Called(t, a) && ev[1..] == rest;
  }

  /** The wrapper returned by `debounce(fn, delay)`. `events` and `delivered`
      are the history of the wrapper and of `fn`, kept for the specification only. */
  class Debounced<A> {
    const wait: nat
    var pending: Option<Timer<A>>
    ghost var events: seq<Event<A>>
    ghost var delivered: seq<A>

    ghost predicate Valid()
      reads this
    {
      && pending == PendingAfter(wait, None, events)
      && delivered == Delivered(wait, None, events)
    }

    constructor (delay: int)
      ensures Valid()
      ensures wait == Wait(delay) && pending == None
      ensures events == [] && delivered == []
    {
      wait := Wait(delay);
      pending := None;
      events, delivered := [], [];
    }

    /** One call of the wrapper at time `now`: the pending timer, if any, is
        cancelled and exactly one new timer, for this call's arguments, is
        pending. Nothing runs. */
    method Call(now: int, args: A)
      requires Valid()
      modifies this
      ensures Valid()
      ensures pending == Some(Timer(now + wait, args))
      ensures events == old(events) + [Called(now, args)]
      ensures delivered == old(delivered)
    {
      OneMoreEvent(wait, None, events, Called(now, args));
      pending := Some(Timer(now + wait, args));
      events := events + [Called(now, args)];
    }

    /** A turn of the event loop at time `now`: a due timer runs `fn` with its
        arguments, which `fired` returns, and the slot empties; otherwise
        nothing happens. */
    method Tick(now: int) returns (fired: Option<A>)
      requires Valid()
      modifies this
      ensures Valid()
      ensures Due(old(pending), now) ==> fired == Some(old(pending).value.args) && pending == None
      ensures !Due(old(pending), now) ==> fired == None && pending == old(pending)
      ensures events == old(events) + [Ticked(now)]
      ensures delivered == old(delivered) + (if fired.Some? then [fired.value] else [])
    {
      OneMoreEvent(wait, None, events, Ticked(now));
      if pending.Some? && now >= pending.value.deadline {
        fired := Some(pending.value.args);
        delivered := delivered + [pending.value.args];
        pending := None;
      } else {
        fired := None;
      }
      events := events + [Ticked(now)];
    }
  }

  /** With `delay` 30, calls at 0, 10 and 20 are coalesced: nothing runs before
      50, `fn` runs once at 50 with the arguments of the call at 20, and never
      with those of the earlier calls. */
  method CoalescingScenario()
  {
    var d := new Debounced<string>(30);
    d.Call(0, "a");
    var f := d.Tick(5);     assert f == None;
    d.Call(10, "b");
    f := d.Tick(15);        assert f == None;
    d.Call(20, "c");
    f := d.Tick(35);        assert f == None;
    f := d.Tick(49);        assert f == None;
    f := d.Tick(50);        assert f == Some("c");
    f := d.Tick(80);        assert f == None;
    assert d.delivered == ["c"];
  }
}
