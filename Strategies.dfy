/**
 * The target-handle strategies' decisions: UnitTargetHandleStrategy picks
 * one outcome per tick from "is the target close" and "is the target
 * checked", and the attack and use-skill strategies define those two tests.
 * Flat distances are given, as non-negative reals, by the caller.
 */
module Strategies {
  import opened Wrappers
  import opened Targets

  /** TargetHandleStrategyAttack.DEFAULT_MINIMAL_DISTANCE_TO_POINT. */
  const MinimalDistanceToPoint: real := 0.1

  /** What HandleTarget does after turning toward a present target. */
  datatype Decision = NoAction | SpecificHandle | ResetTarget | MoveToTarget

  /**
   * HandleTarget: nothing for a null or missing target; otherwise handle a
   * close checked target, drop a close unchecked one, and walk toward a
   * target that is not close. `checked` is only consulted for a close target.
   */
  function Decide(missing: bool, close: bool, checked: bool): (d: Decision)
    ensures d == NoAction <==> missing
    ensures d == SpecificHandle <==> !missing && close && checked
    ensures d == ResetTarget <==> !missing && close && !checked
    ensures d == MoveToTarget <==> !missing && !close
  {
    if missing then NoAction
    else if close then (if checked then SpecificHandle else ResetTarget)
    else MoveToTarget
  }

  /** A target that is not close is never checked: its check cannot change the decision. */
  lemma FarTargetNotChecked(missing: bool, checked1: bool, checked2: bool)
    ensures Decide(missing, false, checked1) == Decide(missing, false, checked2)
  {
  }

  /** TargetHandleStrategyAttack.IsCloseForTarget: within attack range of an attackable target, within 0.1 of anything else. */
  predicate AttackIsClose(distance: real, target: Target, attackRange: real)
    ensures IsAttackable(target) ==> (AttackIsClose(distance, target, attackRange) <==> distance <= attackRange)
    ensures !IsAttackable(target) ==> (AttackIsClose(distance, target, attackRange) <==> distance <= MinimalDistanceToPoint)
  {
    distance <= (if IsAttackable(target) then attackRange else MinimalDistanceToPoint)
  }

  /** TargetHandleStrategyAttack.IsTargetChecked: attackable, accepting the attacker's team, and alive. */
  predicate AttackIsChecked(target: Target, state: TargetState, attacker: Team)
    ensures target.PointTarget? || target.AreaTarget? ==> !AttackIsChecked(target, state, attacker)
    ensures AttackIsChecked(target, state, attacker) ==> state.alive && state.attackableBy == attacker
  {
    IsAttackable(target) && state.attackableBy == attacker && state.alive
  }

  /**
   * Walking to a point or an area ends with dropping it: once within 0.1
   * the attack strategy resets the target, and before that it moves on.
   */
  lemma ArrivingAtGroundResets(target: Target, distance: real, attackRange: real, attacker: Team)
    requires target.PointTarget? || target.AreaTarget?
    ensures var s := GroundState(target);
            Decide(s.missing, AttackIsClose(distance, target, attackRange), AttackIsChecked(target, s, attacker))
            == (if distance <= MinimalDistanceToPoint then ResetTarget else MoveToTarget)
  {
  }

  /** A unit only ever attacks a live target of the other side. */
  lemma AttackOnlyOpponents(side: Side, target: Target, state: TargetState, attacker: Team)
    requires IsAttackable(target) && state.attackableBy == AttackableBy(side)
    requires AttackIsChecked(target, state, attacker)
    ensures CanBeAttackedBy(side, attacker) && state.alive
  {
  }

  /** TargetHandleStrategyUseSkill.IsCloseForTarget: within the skill's usable distance. */
  predicate SkillIsClose(distance: real, distanceUsing: real)
    ensures distance <= 0.0 <= distanceUsing ==> SkillIsClose(distance, distanceUsing)
    ensures distanceUsing < 0.0 <= distance ==> !SkillIsClose(distance, distanceUsing)
  {
    distance <= distanceUsing
  }

  /** TargetHandleStrategyUseSkill.IsTargetChecked: the skill accepts the target and the caster can cast it now. */
  predicate SkillIsChecked(targetCorrect: bool, canBeUsed: bool)
    ensures SkillIsChecked(targetCorrect, canBeUsed) ==> targetCorrect
    ensures SkillIsChecked(targetCorrect, canBeUsed) ==> canBeUsed
  {
    targetCorrect && canBeUsed
  }

  /**
   * The strategies' constructors: the base rejects a null unit, the
   * use-skill strategy then a null skill (both ArgumentNullException) and
   * a unit that is not ISkilled (ArgumentException).
   */
  datatype StrategyKind = AttackKind | UseSkillKind

  function NewStrategy(kind: StrategyKind, unit: bool, skill: bool, unitIsSkilled: bool): (r: Outcome)
    ensures r.Done? <==> unit && (kind.AttackKind? || (skill && unitIsSkilled))
    ensures !unit ==> r == Fail(ArgumentNull)
    ensures unit && kind == UseSkillKind && !skill ==> r == Fail(ArgumentNull)
    ensures unit && kind == UseSkillKind && skill && !unitIsSkilled ==> r == Fail(Argument)
  {
    if !unit then Fail(ArgumentNull)
    else if kind == AttackKind then Done
    else if !skill then Fail(ArgumentNull)
    else if !unitIsSkilled then Fail(Argument)
    else Done
  }
}
