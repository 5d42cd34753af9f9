# esp8266_timer: the `T_OFF` countdown timer

`T_OFF` is a countdown timer for a microcontroller. It keeps two fields: a
32-bit unsigned deadline in milliseconds (`m_millisWhenElapsed`, initially
`UINT32_MAX`) and a running flag (`m_isRun`, initially false). `Start(seconds)`
sets the flag and puts the deadline `seconds * 1000` ms after the current tick
of the platform's millisecond counter `millis()`; `Stop()` clears the flag;
`UpdateTime(seconds)` reschedules without touching the flag; `Loop()`, polled
by the application, invokes the finished callback whenever the timer is
running and the tick has reached the deadline; `ElapsedSeconds()` reports the
whole seconds *remaining* while running. `Start` and `Stop` also invoke an
optional start or stop callback.

The model, in two modules:

- `UInt32` (`uint32.dfy`): `uint32_t` values as the subset type `U32` of
  `int`, with wrapping add, subtract and multiply written out modulo 2^32.
- `Timer` (`timer.dfy`): the class `TOff` (for `T_OFF`) with the two fields and
  the three callback bindings; `Start`, `Stop` and `UpdateTime` are methods
  that change the fields in place; `IsRun` and `ElapsedSeconds` are functions
  that only read them, as their `const` declarations promise; `Loop` is a
  method that changes nothing and returns the callbacks it invokes. The
  arithmetic (`DeadlineAfter`, `RemainingSeconds`) and the guard of `Loop`
  (`IsDue`) are functions of the state and the tick, and the lemmas about them
  state the timer's behaviour across operations: the start/remaining round
  trip, when a started timer falls due, and the two places where the
  unsigned arithmetic gives surprising answers (a deadline that wraps past
  2^32 is due at once; an overdue timer reports almost 2^32 ms worth of
  seconds instead of 0). These behaviours are modelled as the code has them,
  not corrected.

The tick `millis()` is a parameter `now` of each operation that reads it.
Whether each callback is bound is a constant given to the constructor, and each
operation that can invoke callbacks returns the list it invoked, in order.

The header and the source file disagree: the header declares `AddSeconds`,
`RemoveSeconds` and `IsElapsed` and no callbacks, while the source defines
`Loop`, `UpdateTime` and `IsRun` and uses three callback members. The model
takes the fields and their initial values from the header and the operations
that have bodies from the source. `ElapsedSeconds` returns 0 while the timer
is stopped (timer.cpp:40-42).

## Model

| member | source | states |
|---|---|---|
| `Timer.DeadlineAfter` | esp8266_timer/timer.cpp:28-31 | the stored deadline, product and sum each wrapped at 2^32, equals `(now + seconds*1000) mod 2^32`, and its wrapped distance from `now` is the wrapped duration `seconds*1000 mod 2^32` |
| `Timer.RemainingSeconds` | esp8266_timer/timer.cpp:41 | the result is the number of whole seconds in the wrapped distance `(deadline - now) mod 2^32`, and never exceeds 4294967 |
| `Timer.IsDue` | esp8266_timer/timer.cpp:24 | the guard of `Loop`: running and the tick at or past the deadline, compared as plain unsigned numbers |
| `Timer.TOff.Due` | esp8266_timer/timer.cpp:24 | the guard of `Loop` on the timer's own fields |
| `Timer.DueCount` | esp8266_timer/timer.cpp:24 | the number of ticks at which `Loop`'s guard holds is at most the number of ticks, and 0 for a stopped timer |
| `Timer.TOff.constructor` | esp8266_timer/timer.h:9-21 | a new timer is stopped with deadline `UINT32_MAX`, invokes nothing, reports 0 remaining seconds and is due at no tick |
| `Timer.TOff.Start` | esp8266_timer/timer.cpp:7-13 | whatever the prior state, the timer runs with deadline `(now + seconds*1000) mod 2^32`, and the start callback is invoked exactly once if bound and not at all otherwise |
| `Timer.TOff.Stop` | esp8266_timer/timer.cpp:15-20 | the flag is cleared, the deadline is kept (so a second `Stop` reaches the same state), the stop callback is invoked exactly once if bound, and the stopped timer is due at no tick and reports 0 seconds |
| `Timer.TOff.UpdateTime` | esp8266_timer/timer.cpp:28-31 | only the deadline changes, to `DeadlineAfter(now, seconds)`; the running flag is unchanged and no callback is invoked |
| `Timer.TOff.IsRun` | esp8266_timer/timer.cpp:33-36 | reports the running flag verbatim, reading the state only |
| `Timer.TOff.ElapsedSeconds` | esp8266_timer/timer.cpp:38-43 | 0 while stopped; while running the whole remaining seconds to the deadline; at most 4294967; reads the state only |
| `Timer.TOff.Loop` | esp8266_timer/timer.cpp:22-26 | changes nothing and invokes the finished callback exactly when running and `now >= deadline`; requires the callback to be bound whenever it would be invoked |
| `Timer.PollLoop` | esp8266_timer/timer.cpp:22-26 | polling `Loop` once per tick with no `Start`/`Stop` between invokes only the finished callback, once per tick at which the timer is due |
| `Timer.OverduePollsAllFire` | esp8266_timer/timer.cpp:24 | for a running timer, N polls at or past the deadline fire N times (the flag is never cleared by `Loop`) |
| `Timer.StartThenRemaining` | esp8266_timer/timer.cpp:30-41 | for `seconds <= 4294967`, the remaining seconds at the tick of `Start` are exactly `seconds`, even when the deadline wrapped |
| `Timer.UnwrappedDeadlineFallsDueOnTime` | esp8266_timer/timer.cpp:24-30 | when `now + seconds*1000` does not overflow, the deadline is that sum, a positive duration is not yet due, and the timer is due at a later tick iff that tick is at least the sum |
| `Timer.WrappedDeadlineIsDueAtOnce` | esp8266_timer/timer.cpp:24-30 | when `now + seconds*1000` overflows (the product alone not), the deadline lies below `now` and `Loop` fires at the very tick of `Start` |
| `Timer.OverdueReportsHugeRemainder` | esp8266_timer/timer.cpp:41 | past the deadline the remaining seconds are `(2^32 - lateness) / 1000` instead of 0: at least `4294967 - lateness/1000 - 1`, and exactly 4294967 when at most 296 ms late |

`Timer.Scenario` walks the concrete run `Start(5)` at tick 1000 (deadline 6000,
3 s remaining at tick 3000, quiet at 5999, firing at 6000 and at every later
poll, `Stop` twice giving the same state) through the class's contracts.

## Left out

- `millis()` and the `ESP8266WiFi.h` include: the platform tick is hardware input; it is the parameter `now`.
- What the callbacks do, and callbacks that call back into the timer: foreign code; only whether each is invoked is modelled.
- Timer.TOff.Loop: the source calls `m_onTimerFinished` without checking that it is bound; the model does not describe that null call and instead requires a bound callback whenever the timer is due.
- How the callbacks get bound: the header shows only `T_OFF() {}` and no callback members, so the bindings are constructor parameters and never change afterwards.
- `AddSeconds`, `RemoveSeconds`, `IsElapsed`: declared in the header without a body in either file, so their behaviour is not modelled; the guard of `Loop` (`IsDue`) is the only elapsed test.
