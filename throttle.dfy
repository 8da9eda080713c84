/**
  Leading-edge throttling (`throttle` in code/index.js).

  The wrapper keeps one number, `begin`, the clock reading of the last call
  that reached `fn` (0 before any). A call at time `now` reaches `fn` exactly
  when `now - begin > delay`, and then `begin` becomes `now`; every other call
  is dropped. The clock (`Date.now()`) is an explicit parameter here.
 */
module Throttle {

  /** One call of the throttled wrapper: the time it was made and its arguments. */
  datatype Trigger<A> = Trigger(at: int, args: A)

  /** The firing rule, with its strict comparison. */
  predicate Fires(delay: int, begin: int, now: int)
  {
    now - begin > delay
  }

  /** The value of `begin` after one call at `now`. */
  function Next(delay: int, begin: int, now: int): int
  {
    if Fires(delay, begin, now) then now else begin
  }

  /** The value of `begin` after the calls `calls`, starting from `begin`. */
  function BeginAfter<A>(delay: int, begin: int, calls: seq<Trigger<A>>): int
    decreases |calls|
  {
    if calls == [] then begin
    else BeginAfter(delay, Next(delay, begin, calls[0].at), calls[1..])
  }

  /** The calls, in order and with their own arguments, that reached `fn`. */
  function Invoked<A>(delay: int, begin: int, calls: seq<Trigger<A>>): seq<Trigger<A>>
    decreases |calls|
  {
    if calls == [] then []
    else if Fires(delay, begin, calls[0].at) then [calls[0]] + Invoked(delay, calls[0].at, calls[1..])
    else Invoked(delay, begin, calls[1..])
  }

  /** `xs` is `ys` with some elements dropped and the rest kept in order. */
  predicate IsSubsequence<T(==)>(xs: seq<T>, ys: seq<T>)
    decreases |ys|
  {
    if xs == [] then true
    else if ys == [] then false
    else (xs[0] == ys[0] && IsSubsequence(xs[1..], ys[1..])) || IsSubsequence(xs, ys[1..])
  }

  /** Running two batches of calls one after the other is running their concatenation. */
  lemma {:induction false} AppendCalls<A>(delay: int, begin: int, xs: seq<Trigger<A>>, ys: seq<Trigger<A>>)
    ensures BeginAfter(delay, begin, xs + ys) == BeginAfter(delay, BeginAfter(delay, begin, xs), ys)
    ensures Invoked(delay, begin, xs + ys)
         == Invoked(delay, begin, xs) + Invoked(delay, BeginAfter(delay, begin, xs), ys)
    decreases |xs|
  {
    if xs == [] {
      assert xs + ys == ys;
    } else {
      assert (xs + ys)[0] == xs[0];
      assert (xs + ys)[1..] == xs[1..] + ys;
      AppendCalls(delay, Next(delay, begin, xs[0].at), xs[1..], ys);
    }
  }

  /** One more call reaches `fn` exactly when the firing rule holds against the
      current `begin`; it then becomes the newest invocation and the new `begin`. */
  lemma OneMoreCall<A>(delay: int, begin: int, calls: seq<Trigger<A>>, c: Trigger<A>)
    ensures var b := BeginAfter(delay, begin, calls);
      && BeginAfter(delay, begin, calls + [c]) == (if Fires(delay, b, c.at) then c.at else b)
      && Invoked(delay, begin, calls + [c])
         == Invoked(delay, begin, calls) + (if Fires(delay, b, c.at) then [c] else [])
  {
    AppendCalls(delay, begin, calls, [c]);
    var b := BeginAfter(delay, begin, calls);
    assert [c][1..] == [];
    assert BeginAfter(delay, b, [c]) == BeginAfter<A>(delay, Next(delay, b, c.at), []);
  }

  /** `begin` is always the time of the latest call that reached `fn`, or its
      initial value when none did. */
  lemma {:induction false} BeginIsLastFiring<A>(delay: int, begin: int, calls: seq<Trigger<A>>)
    ensures var inv := Invoked(delay, begin, calls);
      BeginAfter(delay, begin, calls) == if inv == [] then begin else inv[|inv| - 1].at
    decreases |calls|
  {
    if calls != [] {
      BeginIsLastFiring(delay, Next(delay, begin, calls[0].at), calls[1..]);
    }
  }

  /** Any two consecutive invocations of `fn` are strictly more than `delay`
      apart, and the first is strictly more than `delay` after the initial
      `begin`. Nothing is assumed about the order of the call times. */
  lemma {:induction false} FiringsSpaced<A>(delay: int, begin: int, calls: seq<Trigger<A>>)
    ensures var inv := Invoked(delay, begin, calls);
      && (inv != [] ==> inv[0].at - begin > delay)
      && forall i :: 0 <= i < |inv| - 1 ==> inv[i + 1].at - inv[i].at > delay
    decreases |calls|
  {
    if calls != [] {
      var c, rest := calls[0], calls[1..];
      if Fires(delay, begin, c.at) {
        FiringsSpaced(delay, c.at, rest);
        var tail := Invoked(delay, c.at, rest);
        var inv := [c] + tail;
        assert Invoked(delay, begin, calls) == inv;
        forall i | 0 <= i < |inv| - 1
          ensures inv[i + 1].at - inv[i].at > delay
        {
          if i > 0 {
            assert inv[i] == tail[i - 1] && inv[i + 1] == tail[i];
          }
        }
      } else {
        FiringsSpaced(delay, begin, rest);
      }
    }
  }

  /** No call reaches `fn` if and only if every call is at most `delay` after
      the initial `begin`. */
  lemma {:induction false} NoneFiresIffAllWithinWindow<A>(delay: int, begin: int, calls: seq<Trigger<A>>)
    ensures Invoked(delay, begin, calls) == []
        <==> forall k :: 0 <= k < |calls| ==> calls[k].at - begin <= delay
    decreases |calls|
  {
    if calls != [] {
      NoneFiresIffAllWithinWindow(delay, begin, calls[1..]);
      assert forall k :: 1 <= k < |calls| ==> calls[k] == calls[1..][k - 1];
    }
  }

  /** The first invocation of `fn` is the first call that lies more than `delay`
      after the initial `begin`; every call before it was suppressed. */
  lemma {:induction false} FirstFiring<A>(delay: int, begin: int, calls: seq<Trigger<A>>)
    requires Invoked(delay, begin, calls) != []
    ensures exists j ::
              && 0 <= j < |calls|
              && Invoked(delay, begin, calls)[0] == calls[j]
              && calls[j].at - begin > delay
              && forall k :: 0 <= k < j ==> calls[k].at - begin <= delay
    decreases |calls|
  {
    if !Fires(delay, begin, calls[0].at) {
      FirstFiring(delay, begin, calls[1..]);
      var j :| 0 <= j < |calls[1..]| && Invoked(delay, begin, calls[1..])[0] == calls[1..][j]
        && calls[1..][j].at - begin > delay
        && forall k :: 0 <= k < j ==> calls[1..][k].at - begin <= delay;
      assert forall k :: 1 <= k < j + 1 ==> calls[k] == calls[1..][k - 1];
      assert Invoked(delay, begin, calls)[0] == calls[j + 1];
    }
  }

  /** Suppressed calls are dropped, never queued or replayed: the invocations of
      `fn` are the calls themselves, an order-preserving selection of them. */
  lemma {:induction false} InvokedAreCalls<A>(delay: int, begin: int, calls: seq<Trigger<A>>)
    ensures IsSubsequence(Invoked(delay, begin, calls), calls)
    ensures |Invoked(delay, begin, calls)| <= |calls|
    decreases |calls|
  {
    if calls != [] {
      var c, rest := calls[0], calls[1..];
      if Fires(delay, begin, c.at) {
        InvokedAreCalls(delay, c.at, rest);
        var inv := [c] + Invoked(delay, c.at, rest);
        assert inv[0] == calls[0] && inv[1..] == Invoked(delay, c.at, rest);
      } else {
        InvokedAreCalls(delay, begin, rest);
        SubsequenceOfTail(Invoked(delay, begin, rest), c, rest);
      }
    }
  }

  /** Putting one more element in front keeps a subsequence a subsequence. */
  lemma SubsequenceOfTail<T>(xs: seq<T>, y: T, ys: seq<T>)
    requires IsSubsequence(xs, ys)
    ensures IsSubsequence(xs, [y] + ys)
  {
    assert ([y] + ys)[1..] == ys;
  }

  /** The wrapper returned by `throttle(fn, delay)`. `calls` and `invoked` are the
      history of the wrapper and of `fn`, kept for the specification only. */
  class Throttled<A> {
    const delay: int
    var begin: int
    ghost var calls: seq<Trigger<A>>
    ghost var invoked: seq<Trigger<A>>

    ghost predicate Valid()
      reads this
    {
      && begin == BeginAfter(delay, 0, calls)
      && invoked == Invoked(delay, 0, calls)
    }

    constructor (delay: int)
      ensures Valid()
      ensures this.delay == delay && begin == 0
      ensures calls == [] && invoked == []
    {
      this.delay := delay;
      begin := 0;
      calls, invoked := [], [];
    }

    /** One call of the wrapper at time `now`; `fired` says whether `fn` ran. */
    method Call(now: int, args: A) returns (fired: bool)
      requires Valid()
      modifies this
      ensures Valid()
      ensures fired <==> now - old(begin) > delay
      ensures begin == (if fired then now else old(begin))
      ensures calls == old(calls) + [Trigger(now, args)]
      ensures invoked == old(invoked) + (if fired then [Trigger(now, args)] else [])
    {
      OneMoreCall(delay, 0, calls, Trigger(now, args));
      fired := now - begin > delay;
      if fired {
        invoked := invoked + [Trigger(now, args)];
        begin := now;
      }
      calls := calls + [Trigger(now, args)];
    }
  }

  /** With the clock starting at 0 and `delay` 100: calls at 0, 50 and 100 are
      suppressed (the first because `0 - 0 > 100` is false), 101 fires, and the
      next firing needs a call after 201. */
  method SimulatedClockScenario()
  {
    var t := new Throttled<string>(100);
    var f := t.Call(0, "a");    assert !f;
    f := t.Call(50, "b");       assert !f;
    f := t.Call(100, "c");      assert !f;
    f := t.Call(101, "d");      assert f && t.begin == 101;
    f := t.Call(201, "e");      assert !f;
    f := t.Call(202, "f");      assert f;
    assert t.invoked == [Trigger(101, "d"), Trigger(202, "f")];
  }
}
