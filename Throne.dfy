/**
 * Throne, the player's main building: the enemies' goal. It takes damage
 * without armour or a minimum, and the hit that leaves it at 0 heal points
 * or below ends the game: Die tells the listeners to stop showing it and
 * then removes every listener, so nobody hears about that hit's health.
 */
module Buildings {
  import opened Wrappers
  import opened Geometry
  import opened Targets
  import opened Health

  /** Throne.DEFAULT_HEAL_POINTS_MAX and HEAL_POINTS_MIN. */
  const DefaultHealPointsMax: int := 10000
  const HealPointsMin: int := 1

  /** What the throne's listeners receive. */
  datatype ThroneEvent =
    | HealthChanged(health: int, fullness: real) // OnHealthChanges
    | StopShowing                                // OnStopShowing

  /** How many times StopShowing occurs in a log. */
  function StopCount(log: seq<ThroneEvent>): (n: nat)
    ensures n <= |log|
    ensures n == 0 <==> StopShowing !in log
  {
    if log == [] then 0
    else StopCount(log[..|log| - 1]) + (if log[|log| - 1] == StopShowing then 1 else 0)
  }

  lemma {:induction false} StopCountAppend(log: seq<ThroneEvent>, e: ThroneEvent)
    ensures StopCount(log + [e]) == StopCount(log) + (if e == StopShowing then 1 else 0)
  {
    assert (log + [e])[..|log + [e]| - 1] == log;
  }

  /** OnValidate's clamp of the configured maximum. */
  function ValidHealPointsMax(configured: int): (r: int)
    ensures r >= HealPointsMin
    ensures configured >= HealPointsMin ==> r == configured
  {
    if configured < HealPointsMin then HealPointsMin else configured
  }

  class Throne {
    const healPointsMax: int
    var hp: int
    /** Whether the listeners are still attached; UnsubscribeEvents drops them all. */
    var subscribed: bool
    /** How many times Die has run. */
    var dieCount: nat
    /** Every event the listeners received, in order. */
    var events: seq<ThroneEvent>

    /**
     * The throne's invariant: a valid maximum, heal points never above it,
     * listeners attached exactly while the throne stands, Die run at least
     * once exactly when it has fallen, StopShowing heard at most once and
     * only after the fall, and every delivered health event one that
     * ChangedHealthArgs accepts, with positive health.
     */
    predicate Valid()
      reads this
    {
      HealPointsMin <= healPointsMax && hp <= healPointsMax
      && (subscribed <==> hp > 0)
      && (dieCount == 0 <==> hp > 0)
      && StopCount(events) == (if subscribed then 0 else 1)
      && forall k :: 0 <= k < |events| && events[k].HealthChanged? ==>
           0 < events[k].health <= healPointsMax
           && NewChangedHealthArgs(events[k].health, events[k].fullness, "").Ok?
    }

    /** IsAlive. */
    predicate IsAlive()
      reads this
    {
      hp > 0
    }

    /** OnValidate then Start: the clamped maximum, full health, listeners attached. */
    constructor (configuredHealPointsMax: int)
      ensures Valid()
      ensures healPointsMax == ValidHealPointsMax(configuredHealPointsMax) && hp == healPointsMax
      ensures IsAlive() && subscribed && dieCount == 0 && events == []
    {
      healPointsMax := ValidHealPointsMax(configuredHealPointsMax);
      hp := ValidHealPointsMax(configuredHealPointsMax);
      subscribed := true;
      dieCount := 0;
      events := [];
    }

    /** CanBeAttackedBy: only the Enemies team may attack the throne. */
    predicate CanBeAttackedBy(attacker: Team)
    {
      Targets.CanBeAttackedBy(ThroneSide, attacker)
    }

    /**
     * ApplyDamage: negative damage throws; otherwise the heal points drop by
     * the truncated damage, with no armour, no minimum and no check that the
     * throne still stands. A hit that leaves them at 0 or below runs Die,
     * and the health event goes out only to listeners still attached.
     */
    method ApplyDamage(damage: real) returns (r: Outcome)
      requires Valid()
      modifies this
      ensures Valid()
      ensures r.Fail? <==> damage < 0.0
      ensures r.Fail? ==> r.error == ArgumentOutOfRange && unchanged(this)
      ensures r.Done? ==> hp == old(hp) - Truncate(damage)
      ensures r.Done? ==> dieCount == old(dieCount) + (if hp <= 0 then 1 else 0)
      ensures r.Done? && hp > 0 ==> events == old(events) + [HealthChanged(hp, Fullness(hp, healPointsMax))]
      ensures r.Done? && hp <= 0 && old(hp) > 0 ==> events == old(events) + [StopShowing]
      ensures r.Done? && old(hp) <= 0 ==> events == old(events)
    {
      if damage < 0.0 {
        return Fail(ArgumentOutOfRange);
      }
      hp := hp - Truncate(damage);
      if hp <= 0 {
        Die();
      }
      if subscribed {
        FullnessAccepted(hp, healPointsMax, "");
        StopCountAppend(events, HealthChanged(hp, Fullness(hp, healPointsMax)));
        events := events + [HealthChanged(hp, Fullness(hp, healPointsMax))];
      }
      r := Done;
    }

    /** Die: StopShowing to whoever still listens, then UnsubscribeEvents. */
    method Die()
      requires HealPointsMin <= healPointsMax && hp <= 0
      requires StopCount(events) == (if subscribed then 0 else 1)
      modifies this`subscribed, this`dieCount, this`events
      ensures !subscribed && dieCount == old(dieCount) + 1 && StopCount(events) == 1
      ensures events == old(events) + (if old(subscribed) then [StopShowing] else [])
    {
      if subscribed {
        StopCountAppend(events, StopShowing);
        events := events + [StopShowing];
      }
      subscribed := false;
      dieCount := dieCount + 1;
    }
  }
}
