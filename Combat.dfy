/**
 * The pure rules behind a unit's behaviour: the constants of Unit and Hero,
 * the teams of the three unit kinds, damage reduced by armour, healing and
 * mana clamping, the attack recharge, the choice of the next target, the
 * hero's experience and level steps and the skill buttons it shows.
 */
module Combat {
  import opened Wrappers
  import opened Geometry
  import opened Targets
  import opened LevelTables

  /** Unit.DEFAULT_FINDING_TARGET_RATE: searches per second, so a search at most every half second. */
  const FindingTargetRate: real := 2.0
  const FindingTargetInterval: real := 1.0 / FindingTargetRate
  /** Unit.ATTACK_RECHARGE_MIN and ATTACK_RECHARGE_MAX: an attack is ready once the recharge reaches 1. */
  const AttackRechargeMin: real := 0.0
  const AttackRechargeMax: real := 1.0
  /** Unit.DAMAGE_TAKEN_MIN: every hit takes at least one heal point. */
  const DamageTakenMin: int := 1
  /** Hero.DEFAULT_DISTANCE_AUTO_ATTACK, DEFAULT_REBORN_DELAY_MULTIPLIER, STARTING_LEVEL, NO_SKILL_BUTTONS_ACTIVATED. */
  const DistanceAutoAttack: real := 20.0
  const RebornDelayMultiplier: int := 10
  const HeroStartingLevel: int := 1
  const NoSkillButtonsActivated: int := -1

  // ---------------------------------------------------------------- teams

  /** The concrete unit classes: UnitMinion (a UnitFriendly), UnitEnemy and Hero (a UnitFriendly). */
  datatype UnitKind = FriendlyMinion | EnemyUnit | HeroUnit

  function TeamOf(kind: UnitKind): (t: Team)
    ensures t == Enemies <==> kind == EnemyUnit
    ensures t == Friends <==> kind != EnemyUnit
  {
    if kind == EnemyUnit then Enemies else Friends
  }

  function SideOf(kind: UnitKind): Side {
    if kind == EnemyUnit then EnemySide else FriendlySide
  }

  /** One unit may attack another exactly when they are on different teams; nobody attacks its own side. */
  lemma AttackOnlyAcrossTeams(attacker: UnitKind, target: UnitKind)
    ensures CanBeAttackedBy(SideOf(target), TeamOf(attacker)) <==> TeamOf(attacker) != TeamOf(target)
    ensures !CanBeAttackedBy(SideOf(attacker), TeamOf(attacker))
  {
  }

  // ---------------------------------------------------------------- damage and healing

  function MaxInt(a: int, b: int): int {
    if a < b then b else a
  }

  /**
   * GetDamageReducedByArmor: the damage truncated to an int, reduced by the
   * armour fraction when the armour is positive, and never below 1.
   */
  function DamageReducedByArmor(damage: real, armor: real): (d: int)
    ensures d >= DamageTakenMin
    ensures armor <= 0.0 ==> d == MaxInt(DamageTakenMin, Truncate(damage))
    ensures armor == 1.0 ==> d == DamageTakenMin
    ensures damage >= 0.0 && 0.0 <= armor <= 1.0 ==> d <= MaxInt(DamageTakenMin, Truncate(damage))
  {
    var result := if armor > 0.0 then Truncate(damage - damage * armor) else Truncate(damage);
    ArmorReducesDamage(damage, armor);
    MaxInt(DamageTakenMin, result)
  }

  /** Helper: with armour in [0, 1] the reduced damage lies between 0 and the damage itself. */
  lemma ArmorReducesDamage(damage: real, armor: real)
    ensures damage >= 0.0 && 0.0 <= armor <= 1.0 ==> 0.0 <= damage - damage * armor <= damage
  {
    if damage >= 0.0 && 0.0 <= armor <= 1.0 {
      assert damage * armor <= damage * 1.0;
      assert damage * armor >= 0.0;
    }
  }

  /** More armour never lets more damage through. */
  lemma MoreArmorLessDamage(damage: real, armor1: real, armor2: real)
    requires damage >= 0.0 && 0.0 <= armor1 <= armor2 <= 1.0
    ensures DamageReducedByArmor(damage, armor2) <= DamageReducedByArmor(damage, armor1)
  {
    assert damage * armor1 <= damage * armor2;
    ArmorReducesDamage(damage, armor2);
    ArmorReducesDamage(damage, armor1);
    TruncateMonotone(damage - damage * armor2, damage - damage * armor1);
    if armor1 == 0.0 {
      TruncateMonotone(damage - damage * armor2, damage);
    }
  }

  /** ApplyHeal on a live unit: add the truncated heal, then cap at the maximum. */
  function Healed(hp: int, heal: real, healPointsMax: int): (r: int)
    ensures r <= healPointsMax
    ensures r == healPointsMax || r == hp + Truncate(heal)
    ensures heal >= 0.0 && hp <= healPointsMax ==> hp <= r
    ensures heal >= 0.0 && hp + Truncate(heal) <= healPointsMax ==> r == hp + Truncate(heal)
  {
    if hp + Truncate(heal) < healPointsMax then hp + Truncate(heal) else healPointsMax
  }

  /** The ManaPoints setter: Mathf.Clamp(value, 0, max). */
  function ClampMana(value: int, max: int): (r: int)
    ensures 0 <= max ==> 0 <= r <= max
    ensures 0 <= value <= max ==> r == value
    ensures value < 0 ==> r == 0
    ensures 0 <= max < value ==> r == max
  {
    if value < 0 then 0 else if value > max then max else value
  }

  /** Clamping is idempotent: setting the mana to its own value changes nothing. */
  lemma ClampManaIdempotent(value: int, max: int)
    requires 0 <= max
    ensures ClampMana(ClampMana(value, max), max) == ClampMana(value, max)
  {
  }

  // ---------------------------------------------------------------- attack recharge

  /** RechargeAttack: a recharge below 1 grows by attack speed times the frame time; a ready one stays. */
  function Recharged(recharge: real, attackSpeed: real, deltaTime: real): (r: real)
    ensures recharge >= AttackRechargeMax ==> r == recharge
    ensures attackSpeed >= 0.0 && deltaTime >= 0.0 ==> r >= recharge
  {
    if recharge < AttackRechargeMax then recharge + attackSpeed * deltaTime else recharge
  }

  /**
   * From a fresh shot (recharge 0), `n` frames of `deltaTime` at
   * `attackSpeed` recharge to n * attackSpeed * deltaTime while not ready.
   */
  function RechargedFrames(recharge: real, attackSpeed: real, deltaTime: real, n: nat): real {
    if n == 0 then recharge else Recharged(RechargedFrames(recharge, attackSpeed, deltaTime, n - 1), attackSpeed, deltaTime)
  }

  /** Until it is ready the recharge grows linearly: n frames add n times attack speed times frame time. */
  lemma {:induction false} RechargeLinear(attackSpeed: real, deltaTime: real, n: nat)
    requires (n as real) * attackSpeed * deltaTime <= AttackRechargeMax
    requires attackSpeed >= 0.0 && deltaTime >= 0.0
    ensures RechargedFrames(AttackRechargeMin, attackSpeed, deltaTime, n) == (n as real) * attackSpeed * deltaTime
  {
    if n > 0 {
      var step := attackSpeed * deltaTime;
      assert step >= 0.0;
      assert (n as real) * attackSpeed * deltaTime == ((n - 1) as real) * step + step;
      assert ((n - 1) as real) * attackSpeed * deltaTime == ((n - 1) as real) * step;
      RechargeLinear(attackSpeed, deltaTime, n - 1);
    }
  }

  // ---------------------------------------------------------------- finding targets

  /** FindTarget searches when the current target is null or missing, or half a second after the last search. */
  predicate SearchDue(targetMissing: bool, now: real, lastFindTime: real) {
    targetMissing || now - lastFindTime >= FindingTargetInterval
  }

  /**
   * FindNextTarget of each kind. `assignedExists` is IsAssignedTargetExists
   * (an assigned target that is still present), `nearest` the nearest
   * attackable opponent the targets provider found, at flat distance
   * `nearestDistance`.
   *  - a minion keeps its assigned target, else the nearest opponent, else the fountain;
   *  - an enemy takes the nearest opponent, else the throne;
   *  - a hero keeps its assigned target, else the nearest opponent within 20, else nothing.
   */
  function NextTarget(kind: UnitKind, assignedExists: bool, current: Option<Target>,
                      nearest: Option<UnitId>, nearestDistance: real): (r: Option<Target>)
    ensures kind != EnemyUnit && assignedExists ==> r == current
    ensures kind == FriendlyMinion && !assignedExists ==>
              r == Some(if nearest.Some? then UnitTarget(nearest.value) else FountainTarget)
    ensures kind == EnemyUnit ==> r == Some(if nearest.Some? then UnitTarget(nearest.value) else ThroneTarget)
    ensures kind == HeroUnit && !assignedExists ==>
              (r.Some? <==> nearest.Some? && nearestDistance <= DistanceAutoAttack)
              && (r.Some? ==> r == Some(UnitTarget(nearest.value)))
  {
    match kind
    case FriendlyMinion =>
      if assignedExists then current
      else if nearest.Some? then Some(UnitTarget(nearest.value)) else Some(FountainTarget)
    case EnemyUnit =>
      if nearest.Some? then Some(UnitTarget(nearest.value)) else Some(ThroneTarget)
    case HeroUnit =>
      if assignedExists then current
      else if nearest.Some? && nearestDistance > DistanceAutoAttack then None
      else if nearest.Some? then Some(UnitTarget(nearest.value)) else None
  }

  /** Minions and enemies always have somewhere to go; only a hero can be left without a target. */
  lemma OnlyHeroesIdle(kind: UnitKind, assignedExists: bool, current: Option<Target>,
                       nearest: Option<UnitId>, nearestDistance: real)
    requires !(kind != EnemyUnit && assignedExists && current.None?)
    ensures NextTarget(kind, assignedExists, current, nearest, nearestDistance).None? ==> kind == HeroUnit
  {
  }

  /** A minion falls back on the fountain and an enemy on the throne, never the other way round. */
  lemma FallbackBuildings(kind: UnitKind, nearestDistance: real)
    ensures NextTarget(kind, false, None, None, nearestDistance)
            == (match kind
                case FriendlyMinion => Some(FountainTarget)
                case EnemyUnit => Some(ThroneTarget)
                case HeroUnit => None)
  {
  }

  // ---------------------------------------------------------------- hero experience

  /**
   * AddExp on a live hero after its argument check, with CheckForLevelUp:
   * add the experience and, when it reaches the needed amount, pay that
   * amount and go up one level. Returns (level, exp); the error is the one
   * GetNeededExpForNextLevel throws for a level below 1.
   */
  function ExpStep(d: HeroData, level: int, exp: int, gained: int): (r: Result<(int, int)>)
    ensures r.Err? <==> level < 1
  {
    match NeededExpForNextLevel(d, level)
    case Err(e) => Err(e)
    case Ok(needed) =>
      if exp + gained < needed then Ok((level, exp + gained)) else Ok((level + 1, exp + gained - needed))
  }

  /**
   * One AddExp raises the level by at most one, however much experience it
   * brings, and no experience is lost: what remains plus what was paid is
   * what there was.
   */
  lemma AtMostOneLevelPerGain(d: HeroData, level: int, exp: int, gained: int)
    requires level >= 1
    ensures var r := ExpStep(d, level, exp, gained);
            r.Ok? && (r.value.0 == level || r.value.0 == level + 1)
            && r.value.1 + (if r.value.0 == level + 1 then NeededExpForNextLevel(d, level).value else 0) == exp + gained
  {
  }

  /** With validated data and non-negative experience, a level-up leaves non-negative experience behind. */
  lemma ExpStaysNonNegative(d: HeroData, level: int, exp: int, gained: int)
    requires HeroDataValid(d) && level >= 1 && exp >= 0 && gained > 0
    ensures ExpStep(d, level, exp, gained).Ok? && ExpStep(d, level, exp, gained).value.1 >= 0
  {
  }

  /** Hero.RebornDelay: ten seconds per level. */
  function RebornDelay(level: int): (r: real)
    ensures level >= HeroStartingLevel ==> r >= 10.0
  {
    (level * RebornDelayMultiplier) as real
  }

  /** Higher heroes wait longer to be reborn. */
  lemma RebornDelayGrows(level: int)
    ensures RebornDelay(level + 1) == RebornDelay(level) + 10.0
  {
  }

  // ---------------------------------------------------------------- skill buttons

  /** ButtonDataCooldowned as far as the hero decides it: its index, active state and flashing state. */
  datatype SkillButton = SkillButton(index: int, isActive: bool, isFlashing: bool)

  /** CreateButtonDataForSkill: a button is active while the hero has the mana for the skill. */
  function ButtonFor(index: int, manaCost: int, manaPoints: int, isFlashing: bool): (b: SkillButton)
    ensures b.index == index && b.isFlashing == isFlashing
    ensures b.isActive <==> manaCost <= manaPoints
  {
    SkillButton(index, manaCost <= manaPoints, isFlashing)
  }

  /**
   * GetButtons as written: the counter is incremented inside the argument
   * list before the flashing comparison runs, so button i flashes when the
   * activated index is i + 1.
   */
  function ButtonsAsWritten(manaCosts: seq<int>, manaPoints: int, activated: int): (r: seq<SkillButton>)
    ensures |r| == |manaCosts|
    ensures forall i :: 0 <= i < |r| ==> r[i] == ButtonFor(i, manaCosts[i], manaPoints, i + 1 == activated)
  {
    seq(|manaCosts|, i requires 0 <= i < |manaCosts| => ButtonFor(i, manaCosts[i], manaPoints, i + 1 == activated))
  }

  /** GetButtons as intended: the button of the activated skill flashes, as OnSkillChangedHandler has it. */
  function Buttons(manaCosts: seq<int>, manaPoints: int, activated: int): (r: seq<SkillButton>)
    ensures |r| == |manaCosts|
    ensures forall i :: 0 <= i < |r| ==> r[i] == ButtonFor(i, manaCosts[i], manaPoints, i == activated)
  {
    seq(|manaCosts|, i requires 0 <= i < |manaCosts| => ButtonFor(i, manaCosts[i], manaPoints, i == activated))
  }

  /** The activated button is shown flashing by the list as written only one place too early: it is never itself flashing. */
  lemma ActivatedButtonNotFlashingAsWritten(manaCosts: seq<int>, manaPoints: int, activated: int)
    requires 0 <= activated < |manaCosts|
    ensures !ButtonsAsWritten(manaCosts, manaPoints, activated)[activated].isFlashing
    ensures activated >= 1 ==> ButtonsAsWritten(manaCosts, manaPoints, activated)[activated - 1].isFlashing
  {
  }

  /** Concrete case: with two skills and the first one activated, the list as written flashes no button at all. */
  lemma FirstSkillActivatedFlashesNothing()
    ensures forall b :: b in ButtonsAsWritten([10, 20], 100, 0) ==> !b.isFlashing
    ensures Buttons([10, 20], 100, 0)[0].isFlashing
  {
    var r := ButtonsAsWritten([10, 20], 100, 0);
    assert r == [SkillButton(0, true, false), SkillButton(1, true, false)];
  }

  /**
   * The corrected list flashes exactly the activated button, and agrees
   * button by button with the single-button notification the hero raises
   * when one skill changes.
   */
  lemma ButtonsFlashActivated(manaCosts: seq<int>, manaPoints: int, activated: int)
    ensures forall i :: 0 <= i < |manaCosts| ==>
              (Buttons(manaCosts, manaPoints, activated)[i].isFlashing <==> i == activated)
    ensures forall i :: 0 <= i < |manaCosts| ==>
              Buttons(manaCosts, manaPoints, activated)[i] == ButtonFor(i, manaCosts[i], manaPoints, i == activated)
    ensures activated == NoSkillButtonsActivated ==>
              forall b :: b in Buttons(manaCosts, manaPoints, activated) ==> !b.isFlashing
  {
  }

  /** GetButtonsLevelUps: no buttons without a skill point; otherwise one per skill that can level up, numbered 0, 1, ... */
  function LevelUpButtons(canLevelUp: nat, skillPoints: int): (r: seq<int>)
    ensures skillPoints < 1 ==> r == []
    ensures skillPoints >= 1 ==> |r| == canLevelUp && forall i :: 0 <= i < |r| ==> r[i] == i
  {
    if skillPoints < 1 then [] else seq(canLevelUp, i => i)
  }
}
