# Throttle and debounce, modelled in Dafny

`code/index.js` defines two rate-limiting wrappers for event callbacks:

- `throttle(fn, delay)` is leading-edge only. The wrapper keeps `begin`, the
  clock reading of the last call that reached `fn`, starting at 0. A call at
  time `now` runs `fn` when `now - begin > delay` (strictly) and then sets
  `begin` to `now`. Every other call is dropped.
- `debounce(fn, delay)` is trailing-edge. The wrapper keeps one pending timer.
  Every call cancels it and schedules a new one, `delay` later, that will run
  `fn` with that call's arguments.

The clock and the timers are made explicit. `Date.now()` becomes a `now`
parameter. The debounce timer becomes a pending slot `Option<Timer>` holding a
deadline and the arguments. The event loop running a due timer becomes a step
`Tick(now)`. The environment decides how calls and ticks interleave, just as
the event loop does in JavaScript. If a call arrives after a deadline has
passed but before its timer ran, the call cancels that timer, as
`clearTimeout` does.

Files:

- `options.dfy`: module `Options`, the `Option` datatype.
- `throttle.dfy`: module `Throttle`. It has the firing rule `Fires`, the
  trace functions `BeginAfter` and `Invoked` over a sequence of calls, lemmas
  about them, and the class `Throttled`. The class has the real field
  `begin`. Its ghost fields `calls` and `invoked` are the wrapper's history
  and the log of `fn`'s invocations. `Valid()` ties the three together.
- `debounce.dfy`: module `Debounce`. It has the one-event steps `Next` and
  `Out` and the trace functions `PendingAfter` and `Delivered` over a
  sequence of calls and ticks. `Survivors` is an independent reference
  definition that decides, call by call, whether that call's arguments are
  delivered. The class `Debounced` has the real field `pending` and the ghost
  history `events` and `delivered`.

Each file also has a client method (`SimulatedClockScenario`,
`CoalescingScenario`). It drives the class through a concrete timeline, and
its assertions are proved from the method contracts alone.

A leading-edge throttle is often expected to fire on its first call. With
`begin` starting at 0, this code fires the first call only when `now > delay`.
That holds in practice because `Date.now()` counts milliseconds since 1970.
With a simulated clock starting at 0, a call at 0 is suppressed.
`SimulatedClockScenario` shows this case.

## Model

| member | source | states |
|---|---|---|
| `Throttle.Throttled.constructor` | code/index.js:10-11 | A new throttled wrapper has `begin == 0`, has seen no calls and has run `fn` never. |
| `Throttle.Throttled.Call` | code/index.js:13-20 | `fn` runs if and only if `now - begin > delay` (strict, so a call at exactly `begin + delay` is suppressed). On a firing, `begin` becomes the actual call time `now` and the call, with its arguments, is appended to the log of invocations. On a suppressed call, `begin` and the log are unchanged. The call is recorded in the history either way, and the history invariant is kept. |
| `Throttle.OneMoreCall` | code/index.js:16-19 | Over call histories, one more call fires exactly when the rule holds against `begin` as left by the earlier calls. If it fires, it becomes the newest invocation and the new `begin`. Otherwise nothing changes. |
| `Throttle.AppendCalls` | code/index.js:13-20 | Two batches of calls run one after the other give the same `begin` and the same invocations as their concatenation. |
| `Throttle.BeginIsLastFiring` | code/index.js:16-18 | After any sequence of calls, `begin` is the time of the latest call that ran `fn`, or its initial value if none did. |
| `Throttle.FiringsSpaced` | code/index.js:11-18 | Over any sequence of calls, ordered in time or not, any two consecutive invocations of `fn` are strictly more than `delay` apart. The first invocation is strictly more than `delay` after the initial `begin` (0 for a new wrapper). |
| `Throttle.NoneFiresIffAllWithinWindow` | code/index.js:11-19 | `fn` never runs if and only if every call is at most `delay` after the initial `begin`; both directions are proved. |
| `Throttle.FirstFiring` | code/index.js:11-19 | The first invocation is the first call that lies more than `delay` after the initial `begin`. All earlier calls were suppressed. |
| `Throttle.InvokedAreCalls` | code/index.js:16-19 | The invocations of `fn` are the calls themselves, with their own arguments untouched. They are an order-preserving selection of the calls: suppressed calls are dropped, never queued or replayed. |
| `Debounce.Debounced.constructor` | code/index.js:32-33 | A new debounced wrapper has nothing pending and no history. Its wait is `delay`, or 0 for a negative delay. |
| `Debounce.Debounced.Call` | code/index.js:34-39 | After any call exactly one invocation is pending. Its deadline is this call's time plus the wait, and it carries this call's arguments, so any earlier pending one is cancelled. A call runs nothing. |
| `Debounce.Debounced.Tick` | code/index.js:36-38 | When the event loop runs at time `now`, a pending timer whose deadline has been reached runs `fn` with its arguments, and the slot empties. Otherwise nothing runs and the slot is unchanged. |
| `Debounce.OneMoreEvent` | code/index.js:35-38 | Over event histories, one more call or tick changes the pending slot and the delivered arguments exactly as that single step does. |
| `Debounce.AppendEvents` | code/index.js:34-39 | Two batches of events run one after the other give the same pending slot and the same deliveries as their concatenation. |
| `Debounce.DeliveredMatchesSurvivors` | code/index.js:34-39 | What `fn` receives over any sequence of calls and ticks equals the reference definition. Whatever was pending at the start is delivered, once, exactly if a tick reaches its deadline before the next call. Each call's arguments are delivered, once, exactly if a tick reaches that call's deadline before the next call. Every other call is superseded and never delivered. |
| `Debounce.FreshDeliversSurvivors` | code/index.js:33-39 | For a new wrapper, with nothing pending, the deliveries are exactly the reference definition's calls. |
| `Debounce.PendingIsLastCall` | code/index.js:35-37 | After the most recent call, followed only by ticks, the slot holds exactly that call's arguments with deadline = its time + wait, until a tick reaches the deadline. From then on it is empty. Nothing before that call matters. |
| `Debounce.EarlyTicks` | code/index.js:36-38 | Ticks before the pending deadline run nothing and leave the pending timer in place. |
| `Debounce.QuietAfterLastCall` | code/index.js:35-38 | A final call followed by quiet drops whatever was pending before. `fn` then runs exactly once, with that call's arguments, if the clock reaches the call's time plus the wait, and not at all otherwise. |
| `Debounce.SupersededCallLeavesNoTrace` | code/index.js:35-38 | Take a call followed by the next call, with only ticks earlier than the first call's deadline between them. This holds, for example, when calls are spaced closer than `delay` and the ticks come before the next call. Then neither that call nor those ticks deliver anything, and the whole run delivers as if that call and the ticks before the next call had never happened. |

## Left out

- `format/postcss.config.js`: a static configuration object read by external PostCSS plugins. It has no logic of its own.
- The real clock and timers (`Date.now()`, `setTimeout`, `clearTimeout`) and the event loop: replaced by explicit `now` parameters, the pending slot and the `Tick` step. When ticks happen is up to the caller of the model.
- Timer delay rules: `Debounce.Wait` models only the browser rule that a negative delay waits 0. Other host-specific timer rules are not modelled: delays above 2^31-1 ms, fractional or non-numeric delays, and minimum clamps for nested timers.
- Throttle.Throttled.Call, Throttle.FiringsSpaced: the model assumes `fn` never calls the wrapper back. The source runs `fn.apply(this, args)` before `begin = now` (code/index.js:17-18). So a call made from inside `fn` still sees the old `begin` and can fire again. The outer call then sets `begin` back to its own, older time. Such a reentrant run can produce two invocations less than `delay` apart. Each modelled `Call` is one atomic step. Debounce is not affected, because its timer slot is already cleared when `fn` runs.
- Throttle.Throttled.Call: `delay` is a whole number of milliseconds. In the source it is any JavaScript value compared with `>`. A fractional delay behaves like its floor, because `Date.now()` readings are whole milliseconds. The following cases are not modelled: a missing, `NaN` or `Infinity` delay, where the comparison is always false and `fn` never runs; a `-Infinity` delay, where `fn` runs on every call.
- Calling `fn` itself: the model records each invocation, with its time and arguments for throttle and its arguments for debounce, instead of running a callback. The return value of `fn` is discarded by the source and is not modelled. Exceptions thrown by `fn` are not modelled either.
- The receiver (`this`): throttle forwards it to `fn` (`fn.apply(this, args)`) and debounce does not (`fn(...args)`). The model does not represent receivers.
- The `if (timeoutId)` test in debounce: the source never resets `timeoutId` after its timer runs, but clearing an expired timer has no effect. The model uses an `Option` slot that empties when the timer runs, which behaves the same.
- Concurrency: both wrappers assume a single-threaded event loop, so each `Call` and `Tick` is one atomic step.
