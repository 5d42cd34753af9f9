/**
 The countdown timer `T_OFF` of esp8266_timer: a 32-bit millisecond deadline
 and a running flag, started for a number of seconds, stopped, rescheduled and
 polled against the platform's millisecond tick.

 The tick `millis()` is not read here: every operation that reads it takes the
 tick as a parameter `now`. Whether a callback is bound is fixed when the timer
 is made; an operation that would invoke callbacks returns, in order, the ones
 it invokes.
 */
module Timer {
  import opened UInt32

  /** Milliseconds per second, the constant `OneSecond` of timer.cpp. */
  const OneSecond: U32 := 1000

  /** The largest whole number of seconds a 32-bit millisecond span holds:
      `Max / OneSecond`. */
  const MaxSeconds: U32 := Max / OneSecond

  /** The three callbacks a timer can invoke. */
  datatype Callback = OnTimerFinished | OnStartTimer | OnStopTimer

  /** The deadline `UpdateTime` stores: `millis() + seconds * OneSecond`, where
      both the product and the sum wrap at 2^32. The two wraps together are
      one wrap of the exact sum, and the wrapped distance from `now` to the
      deadline is the wrapped duration. */
  function DeadlineAfter(now: U32, seconds: U32): (deadline: U32)
    ensures deadline == (now + seconds * OneSecond) % TwoPow32
    ensures WrapSub(deadline, now) == WrapMul(seconds, OneSecond)
  {
    WrapAdd(now, WrapMul(seconds, OneSecond))
  }

  /** What `ElapsedSeconds` computes for a running timer,
      `(deadline - millis()) / OneSecond`: the whole seconds in the wrapped
      distance from `now` to the deadline. */
  function RemainingSeconds(deadline: U32, now: U32): (r: U32)
    ensures r <= MaxSeconds
    ensures r * OneSecond <= WrapSub(deadline, now) < (r + 1) * OneSecond
  {
    WrapSub(deadline, now) / OneSecond
  }

  /** The guard of `Loop`: running and `millis() >= deadline`, compared as
      plain unsigned numbers (not wrap-tolerant). */
  predicate IsDue(running: bool, deadline: U32, now: U32) {
    running && now >= deadline
  }

  /** The number of ticks in `ticks` at which the guard of `Loop` holds. */
  function DueCount(running: bool, deadline: U32, ticks: seq<U32>): (n: nat)
    ensures n <= |ticks|
    ensures !running ==> n == 0
  {
    if ticks == [] then 0
    else
      DueCount(running, deadline, ticks[..|ticks| - 1])
      + (if IsDue(running, deadline, ticks[|ticks| - 1]) then 1 else 0)
  }

  /** Class `T_OFF`. */
  class TOff {
    /** `m_millisWhenElapsed` */
    var millisWhenElapsed: U32
    /** `m_isRun` */
    var isRun: bool
    /** Whether `m_onTimerFinished`, `m_onStartTimer` and `m_onStopTimer`
        hold a function. */
    const hasOnTimerFinished: bool
    const hasOnStartTimer: bool
    const hasOnStopTimer: bool

    /** A new timer is stopped, its deadline is the largest `uint32_t`, and
        no callback is invoked; so it reports no remaining seconds and its
        `Loop` fires at no tick. */
    constructor (hasOnTimerFinished: bool, hasOnStartTimer: bool, hasOnStopTimer: bool)
      ensures millisWhenElapsed == Max && !isRun
      ensures this.hasOnTimerFinished == hasOnTimerFinished
      ensures this.hasOnStartTimer == hasOnStartTimer
      ensures this.hasOnStopTimer == hasOnStopTimer
      ensures forall now: U32 :: ElapsedSeconds(now) == 0 && !Due(now)
    {
      millisWhenElapsed := Max;
      isRun := false;
      this.hasOnTimerFinished := hasOnTimerFinished;
      this.hasOnStartTimer := hasOnStartTimer;
      this.hasOnStopTimer := hasOnStopTimer;
    }

    /** The guard of `Loop` on this timer's state. */
    predicate Due(now: U32)
      reads this
    {
      IsDue(isRun, millisWhenElapsed, now)
    }

    /** `Start(seconds)`: run, reschedule to `seconds` from `now` whatever the
        previous state, then invoke `onStartTimer` once if it is bound. */
    method Start(seconds: U32, now: U32) returns (fired: seq<Callback>)
      modifies this
      ensures isRun
      ensures millisWhenElapsed == DeadlineAfter(now, seconds)
      ensures fired == if hasOnStartTimer then [OnStartTimer] else []
    {
      isRun := true;
      UpdateTime(seconds, now);
      fired := if hasOnStartTimer then [OnStartTimer] else [];
    }

    /** `Stop()`: clear the running flag, keep the deadline, then invoke
        `onStopTimer` once if it is bound. Stopping again reaches the same
        state, and a stopped timer is due at no tick. */
    method Stop() returns (fired: seq<Callback>)
      modifies this
      ensures !isRun
      ensures millisWhenElapsed == old(millisWhenElapsed)
      ensures fired == if hasOnStopTimer then [OnStopTimer] else []
      ensures forall now: U32 :: !Due(now) && ElapsedSeconds(now) == 0
    {
      isRun := false;
      fired := if hasOnStopTimer then [OnStopTimer] else [];
    }

    /** `UpdateTime(seconds)`: move the deadline to `seconds` from `now`. Only
        the deadline may change (the running flag is outside the frame) and
        nothing is invoked. */
    method UpdateTime(seconds: U32, now: U32)
      modifies this`millisWhenElapsed
      ensures millisWhenElapsed == DeadlineAfter(now, seconds)
      ensures isRun == old(isRun)
    {
      millisWhenElapsed := WrapAdd(now, WrapMul(seconds, OneSecond));
    }

    /** `IsRun()`: the running flag as stored. */
    function IsRun(): (running: bool)
      reads this
      ensures running <==> isRun
    {
      isRun
    }

    /** `ElapsedSeconds()`: despite the name, the whole seconds REMAINING
        until the deadline while running, and 0 while stopped. Never above
        `MaxSeconds`. */
    function ElapsedSeconds(now: U32): (r: U32)
      reads this
      ensures !isRun ==> r == 0
      ensures isRun ==> r == RemainingSeconds(millisWhenElapsed, now)
      ensures r <= MaxSeconds
    {
      if isRun then RemainingSeconds(millisWhenElapsed, now) else 0
    }

    /** `Loop()`: invoke `onTimerFinished` exactly when the timer is due.
        The flag is not cleared, so every later call fires again. The source
        invokes the callback without checking that it is bound, so a caller
        must not let the timer fall due with no callback bound. */
    method Loop(now: U32) returns (fired: seq<Callback>)
      requires Due(now) ==> hasOnTimerFinished
      ensures fired == if Due(now) then [OnTimerFinished] else []
    {
      if isRun && now >= millisWhenElapsed {
        fired := [OnTimerFinished];
      } else {
        fired := [];
      }
    }
  }

  /** A caller polling `Loop` once per tick in `ticks`, with no `Start` or
      `Stop` between the polls: `onTimerFinished` fires once per due tick. */
  method PollLoop(t: TOff, ticks: seq<U32>) returns (fired: seq<Callback>)
    requires forall i :: 0 <= i < |ticks| ==> t.Due(ticks[i]) ==> t.hasOnTimerFinished
    ensures forall i :: 0 <= i < |fired| ==> fired[i] == OnTimerFinished
    ensures |fired| == DueCount(t.isRun, t.millisWhenElapsed, ticks)
  {
    fired := [];
    for i := 0 to |ticks|
      invariant forall k :: 0 <= k < |fired| ==> fired[k] == OnTimerFinished
      invariant |fired| == DueCount(t.isRun, t.millisWhenElapsed, ticks[..i])
    {
      var f := t.Loop(ticks[i]);
      assert ticks[..i + 1][..i] == ticks[..i];
      fired := fired + f;
    }
    assert ticks[..|ticks|] == ticks;
  }

  /** Once past the deadline, every poll of a running timer fires: N polls,
      N callbacks. */
  lemma {:induction false} OverduePollsAllFire(deadline: U32, ticks: seq<U32>)
    requires forall i :: 0 <= i < |ticks| ==> ticks[i] >= deadline
    ensures DueCount(true, deadline, ticks) == |ticks|
  {
    if ticks != [] {
      OverduePollsAllFire(deadline, ticks[..|ticks| - 1]);
    }
  }

  /** Round trip: for a duration that fits in 32 bits of milliseconds,
      starting at `now` and asking for the remaining seconds at the same tick
      gives the duration back, even when the deadline wrapped past 2^32. */
  lemma StartThenRemaining(now: U32, seconds: U32)
    requires seconds <= MaxSeconds
    ensures RemainingSeconds(DeadlineAfter(now, seconds), now) == seconds
  {
  }

  /** When the deadline does not wrap, a timer started for a positive number
      of seconds is not due yet, and it falls due exactly at the tick
      `seconds * OneSecond` later. */
  lemma UnwrappedDeadlineFallsDueOnTime(now: U32, seconds: U32, later: U32)
    requires now + seconds * OneSecond < TwoPow32
    ensures DeadlineAfter(now, seconds) == now + seconds * OneSecond
    ensures 0 < seconds ==> !IsDue(true, DeadlineAfter(now, seconds), now)
    ensures IsDue(true, DeadlineAfter(now, seconds), later) <==> later >= now + seconds * OneSecond
  {
  }

  /** The guard is not wrap-tolerant: when `now + seconds * OneSecond`
      overflows (and the product itself does not), the stored deadline lies
      below `now`, so `Loop` fires at the very tick the timer was started. */
  lemma WrappedDeadlineIsDueAtOnce(now: U32, seconds: U32)
    requires seconds * OneSecond < TwoPow32 <= now + seconds * OneSecond
    ensures DeadlineAfter(now, seconds) < now
    ensures IsDue(true, DeadlineAfter(now, seconds), now)
  {
  }

  /** The subtraction in `ElapsedSeconds` underflows past the deadline: a
      running timer that is overdue reports nearly 2^32 milliseconds' worth of
      seconds instead of 0, the full `MaxSeconds` when it is at most 296 ms
      overdue. */
  lemma OverdueReportsHugeRemainder(deadline: U32, now: U32)
    requires deadline < now
    ensures RemainingSeconds(deadline, now) == (TwoPow32 - (now - deadline)) / OneSecond
    ensures RemainingSeconds(deadline, now) + (now - deadline) / OneSecond + 1 >= MaxSeconds
    ensures now - deadline <= 296 ==> RemainingSeconds(deadline, now) == MaxSeconds
  {
  }

  /** The concrete run: started for 5 s at tick 1000, the deadline is 6000;
      3 s remain at tick 3000; `Loop` is quiet at 5999 and fires at 6000 and
      again at every later poll; stopping twice leaves the state of stopping
      once. */
  method Scenario() {
    var t := new TOff(true, true, false);
    var fired := t.Start(5, 1000);
    assert fired == [OnStartTimer];
    assert t.millisWhenElapsed == 6000 && t.IsRun();
    assert t.ElapsedSeconds(3000) == 3;
    fired := t.Loop(5999);
    assert fired == [];
    fired := t.Loop(6000);
    assert fired == [OnTimerFinished];
    fired := PollLoop(t, [6000, 7000, 6001]);
    OverduePollsAllFire(6000, [6000, 7000, 6001]);
    assert |fired| == 3;
    fired := t.Stop();
    assert fired == [] && !t.IsRun() && t.millisWhenElapsed == 6000;
    fired := t.Stop();
    assert fired == [] && !t.IsRun() && t.millisWhenElapsed == 6000;
  }
}
