/**
 * TimerCountdown: a countdown in seconds that a periodic timer ticks once a
 * second. The periodic timer itself is replaced by an explicit callback,
 * CountdownTick, and by a flag saying whether callbacks are scheduled.
 */
module Timers {
  import opened Wrappers

  /** The two events of the timer: OnTick(countdown) and OnFinish(Countdowned). */
  datatype TimerEvent = Tick(value: real) | Finish(countdowned: nat)

  /** The countdown a callback leaves behind: one second less while positive, 0 once stopped. */
  function AfterTick(countdown: real): (r: real)
    ensures countdown > 0.0 ==> r == countdown - 1.0 && r < countdown
    ensures countdown <= 0.0 ==> r == 0.0
  {
    if countdown > 0.0 then countdown - 1.0 else 0.0
  }

  /** The events one callback emits: a tick with the current value while positive, otherwise the finish. */
  function TickEvents(countdown: real, countdowned: nat): (r: seq<TimerEvent>)
    ensures |r| == 1
    ensures r[0].Tick? <==> countdown > 0.0
    ensures r[0].Tick? ==> r[0].value == countdown
    ensures r[0].Finish? ==> r[0].countdowned == countdowned
  {
    if countdown > 0.0 then [Tick(countdown)] else [Finish(countdowned)]
  }

  /**
   * The events of `k` scheduled callbacks from `countdown`, each one a
   * CountdownTick: a finish unschedules the timer, so no callback follows it.
   */
  function Fired(countdown: real, countdowned: nat, k: nat): seq<TimerEvent> {
    if k == 0 then []
    else TickEvents(countdown, countdowned)
         + (if countdown > 0.0 then Fired(AfterTick(countdown), countdowned, k - 1) else [])
  }

  /** The ticks n, n - 1, ..., 1. */
  function CountDown(n: nat): (r: seq<TimerEvent>)
    ensures |r| == n
    ensures forall k :: 0 <= k < n ==> r[k] == Tick((n - k) as real)
  {
    if n == 0 then [] else [Tick(n as real)] + CountDown(n - 1)
  }

  /**
   * From a whole number n the ticks report n, n - 1, ..., 1 and are followed
   * by exactly one finish, however many further callbacks are allowed.
   */
  lemma {:induction false} CountdownFromWhole(n: nat, countdowned: nat, k: nat)
    requires k > n
    ensures Fired(n as real, countdowned, k) == CountDown(n) + [Finish(countdowned)]
  {
    if n > 0 {
      CountdownFromWhole(n - 1, countdowned, k - 1);
      assert (n - 1) as real == n as real - 1.0;
    }
  }

  /** Before the countdown has run out, the callbacks are ticks only: no finish is reported early. */
  lemma {:induction false} NoEarlyFinish(n: nat, countdowned: nat, k: nat)
    requires k <= n
    ensures Fired(n as real, countdowned, k) == CountDown(n)[..k]
  {
    if k > 0 {
      NoEarlyFinish(n - 1, countdowned, k - 1);
      assert (n - 1) as real == n as real - 1.0;
      assert CountDown(n)[..k] == [Tick(n as real)] + CountDown(n - 1)[..k - 1];
    }
  }

  class TimerCountdown {
    const countdowned: nat
    const description: string
    var countdown: real
    /** Whether the periodic timer will call CountdownTick again, and its period in seconds. */
    var scheduled: bool
    var period: real
    /** Every OnTick and OnFinish raised so far, in order. */
    var events: seq<TimerEvent>

    /** IsTicking: the countdown is still positive. */
    predicate IsTicking()
      reads this`countdown
    {
      countdown > 0.0
    }

    /**
     * The constructor after its null check: store the initial value and,
     * when it is positive, start the countdown at once.
     */
    constructor (countdowned: nat, description: string, countdownInitial: real)
      ensures this.countdowned == countdowned && this.description == description
      ensures countdown == countdownInitial && events == []
      ensures scheduled <==> countdownInitial > 0.0
      ensures scheduled ==> period == (if countdownInitial > 1.0 then 1.0 else countdownInitial)
      ensures IsTicking() <==> countdownInitial > 0.0
    {
      this.countdowned := countdowned;
      this.description := description;
      countdown := countdownInitial;
      scheduled := false;
      period := 0.0;
      events := [];
      new;
      if countdownInitial > 0.0 {
        var started := StartCountdown(countdownInitial);
      }
    }

    /** The constructor's null check: a null countdowned object throws ArgumentNullException. */
    static method Create(countdowned: Option<nat>, description: string, countdownInitial: real)
      returns (r: Result<TimerCountdown>)
      ensures r.Err? <==> countdowned.None?
      ensures r.Err? ==> r.error == ArgumentNull
      ensures r.Ok? ==> fresh(r.value) && r.value.countdowned == countdowned.value
                        && r.value.countdown == countdownInitial && r.value.events == []
                        && (r.value.scheduled <==> countdownInitial > 0.0)
    {
      if countdowned.None? {
        return Err(ArgumentNull);
      }
      var timer := new TimerCountdown(countdowned.value, description, countdownInitial);
      r := Ok(timer);
    }

    /** StartCountdown: a negative value throws; otherwise the countdown is set and callbacks start now. */
    method StartCountdown(countdownInitial: real) returns (r: Outcome)
      modifies this`countdown, this`scheduled, this`period
      ensures r.Fail? <==> countdownInitial < 0.0
      ensures r.Fail? ==> r.error == ArgumentOutOfRange && unchanged(this)
      ensures r.Done? ==> countdown == countdownInitial && scheduled
                          && period == (if countdownInitial > 1.0 then 1.0 else countdownInitial)
    {
      if countdownInitial < 0.0 {
        return Fail(ArgumentOutOfRange);
      }
      countdown := countdownInitial;
      period := if countdown > 1.0 then 1.0 else countdown;
      scheduled := true;
      r := Done;
    }

    /** StopCountdown: zero the countdown, unschedule the callbacks and raise OnFinish. */
    method StopCountdown()
      modifies this`countdown, this`scheduled, this`events
      ensures countdown == 0.0 && !scheduled && !IsTicking()
      ensures events == old(events) + [Finish(countdowned)]
    {
      countdown := 0.0;
      scheduled := false;
      events := events + [Finish(countdowned)];
    }

    /** CountdownTick: report and decrease a positive countdown, otherwise stop. */
    method CountdownTick()
      modifies this`countdown, this`scheduled, this`events
      ensures countdown == AfterTick(old(countdown))
      ensures events == old(events) + TickEvents(old(countdown), countdowned)
      ensures scheduled == (old(scheduled) && old(countdown) > 0.0)
    {
      if countdown > 0.0 {
        events := events + [Tick(countdown)];
        countdown := countdown - 1.0;
      } else {
        StopCountdown();
      }
    }
  }
}
