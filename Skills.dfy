/**
 * The two skills (IceBolt and Meteor): their per-level parameters
 * (SkillDataGeneric with SkillParameters), their targeting modes, their
 * target checks and the Skill object with its level and recharge timer.
 */
module Skills {
  import opened Wrappers
  import opened Geometry
  import opened Targets
  import opened Timers

  datatype SkillKind = IceBolt | Meteor

  /**
   * SkillParametersIceBolt and SkillParametersMeteor, each with the mana
   * cost and cooldown of SkillParameters. Prefabs and effect assets are
   * identified by number.
   */
  datatype SkillParameters =
    | IceBoltParameters(manaCost: int, cooldown: real, usingRadius: real, arrowPrefab: nat, arrowSpeed: real, effectFreeze: nat)
    | MeteorParameters(manaCost: int, cooldown: real, blastRadius: real, damage: real, meteorShowerPrefab: nat)

  function KindOf(p: SkillParameters): SkillKind {
    if p.IceBoltParameters? then IceBolt else Meteor
  }

  /** DistanceUsing: the using radius of an ice bolt; a meteor can be cast at any distance. */
  function DistanceUsing(p: SkillParameters): (r: real)
    ensures p.MeteorParameters? ==> r == FloatMax
    ensures p.IceBoltParameters? ==> r == p.usingRadius
  {
    match p
    case IceBoltParameters(_, _, usingRadius, _, _, _) => usingRadius
    case MeteorParameters(_, _, _, _, _) => FloatMax
  }

  /**
   * The fields a parameter class's own OnValidate bounds: the using radius
   * and arrow speed of an ice bolt, the blast radius and damage of a meteor
   * (each with minimum 0).
   */
  predicate OwnFieldsNonNegative(p: SkillParameters) {
    match p
    case IceBoltParameters(_, _, usingRadius, _, arrowSpeed, _) => usingRadius >= 0.0 && arrowSpeed >= 0.0
    case MeteorParameters(_, _, blastRadius, damage, _) => blastRadius >= 0.0 && damage >= 0.0
  }

  /**
   * Every bounded field at or above its minimum: the base class's mana cost
   * (MANA_COST_MIN = 0) and cooldown (COOLDOWN_MIN = 0) as well as the
   * class's own fields. The code as written does not establish this.
   */
  predicate ParametersNonNegative(p: SkillParameters) {
    p.manaCost >= 0 && p.cooldown >= 0.0 && OwnFieldsNonNegative(p)
  }

  function MaxReal(a: real, b: real): real {
    if a < b then b else a
  }

  /**
   * OnValidate as SkillParametersIceBolt and SkillParametersMeteor override
   * it: each raises its own two fields to their minimum and never calls
   * base.OnValidate(), so the mana cost and the cooldown stay as entered.
   */
  function ValidateParameters(p: SkillParameters): (r: SkillParameters)
    ensures OwnFieldsNonNegative(r) && KindOf(r) == KindOf(p)
    ensures r.manaCost == p.manaCost && r.cooldown == p.cooldown
    ensures OwnFieldsNonNegative(p) ==> r == p
  {
    match p
    case IceBoltParameters(manaCost, cooldown, usingRadius, arrowPrefab, arrowSpeed, effectFreeze) =>
      IceBoltParameters(manaCost, cooldown, MaxReal(0.0, usingRadius), arrowPrefab, MaxReal(0.0, arrowSpeed), effectFreeze)
    case MeteorParameters(manaCost, cooldown, blastRadius, damage, prefab) =>
      MeteorParameters(manaCost, cooldown, MaxReal(0.0, blastRadius), MaxReal(0.0, damage), prefab)
  }

  /** A negative mana cost and cooldown survive validation, for either kind of skill. */
  lemma NegativeCostAndCooldownSurvive()
    ensures var bolt := IceBoltParameters(-5, -1.0, 2.0, 0, 1.0, 0);
            ValidateParameters(bolt) == bolt && !ParametersNonNegative(ValidateParameters(bolt))
    ensures var meteor := MeteorParameters(-5, -1.0, 3.0, 10.0, 0);
            ValidateParameters(meteor) == meteor && !ParametersNonNegative(ValidateParameters(meteor))
  {
  }

  /** SkillParameters.OnValidate: the base class's clamps of the mana cost and the cooldown. */
  function ValidateBase(p: SkillParameters): (r: SkillParameters)
    ensures r.manaCost >= 0 && r.cooldown >= 0.0 && KindOf(r) == KindOf(p)
    ensures r.manaCost == (if p.manaCost < 0 then 0 else p.manaCost)
    ensures r.cooldown == MaxReal(0.0, p.cooldown)
    ensures OwnFieldsNonNegative(r) <==> OwnFieldsNonNegative(p)
  {
    var manaCost := if p.manaCost < 0 then 0 else p.manaCost;
    match p
    case IceBoltParameters(_, cooldown, usingRadius, arrowPrefab, arrowSpeed, effectFreeze) =>
      IceBoltParameters(manaCost, MaxReal(0.0, cooldown), usingRadius, arrowPrefab, arrowSpeed, effectFreeze)
    case MeteorParameters(_, cooldown, blastRadius, damage, prefab) =>
      MeteorParameters(manaCost, MaxReal(0.0, cooldown), blastRadius, damage, prefab)
  }

  /**
   * The overrides with the base.OnValidate() call they leave out: the base
   * clamps, then the class's own. Every bounded field is then at or above
   * its minimum, records already in bounds are kept, and the own fields
   * agree with the overrides as written.
   */
  function ValidateParametersCorrected(p: SkillParameters): (r: SkillParameters)
    ensures ParametersNonNegative(r) && KindOf(r) == KindOf(p)
    ensures ParametersNonNegative(p) ==> r == p
    ensures p.manaCost >= 0 && p.cooldown >= 0.0 ==> r == ValidateParameters(p)
  {
    ValidateParameters(ValidateBase(p))
  }

  /** Validating again changes nothing, for the overrides and for the corrected validation alike. */
  lemma ValidationIdempotent(p: SkillParameters)
    ensures ValidateParameters(ValidateParameters(p)) == ValidateParameters(p)
    ensures ValidateParametersCorrected(ValidateParametersCorrected(p)) == ValidateParametersCorrected(p)
  {
  }

  // ---------------------------------------------------------------- targeting modes

  datatype TargetingKind = UnitTargeting | AreaTargeting | SelfTargeting

  /**
   * A SkillTargetingMode asset. It is shared: every level of a skill
   * configures the same object and hands it out.
   */
  class SkillTargeting {
    const kind: TargetingKind
    var usingRadius: real
    var areaRadius: real

    constructor (kind: TargetingKind)
      ensures this.kind == kind && usingRadius == 0.0 && areaRadius == 0.0
    {
      this.kind := kind;
      usingRadius := 0.0;
      areaRadius := 0.0;
    }

    /** IsWithSelecting: every mode except targeting oneself asks the player to pick a target. */
    predicate IsWithSelecting() {
      kind != SelfTargeting
    }

    /** SkillTargetingUnit.SetupUsingRadius: a negative radius throws. */
    method SetupUsingRadius(radius: real) returns (r: Outcome)
      modifies this`usingRadius
      ensures r.Fail? <==> radius < 0.0
      ensures r.Fail? ==> r.error == ArgumentOutOfRange && usingRadius == old(usingRadius)
      ensures r.Done? ==> usingRadius == radius
    {
      if radius < 0.0 {
        return Fail(ArgumentOutOfRange);
      }
      usingRadius := radius;
      r := Done;
    }

    /** SkillTargetingArea.SetupAreaRadius: stored as given, without a check. */
    method SetupAreaRadius(radius: real)
      modifies this`areaRadius
      ensures areaRadius == radius
    {
      areaRadius := radius;
    }
  }

  // ---------------------------------------------------------------- skill data

  /**
   * SkillData<TParams, TTargeting>: base parameters, an optional list of
   * upgrades (entry k is level k + 2) and the shared targeting mode.
   */
  datatype SkillData = SkillData(
    kind: SkillKind, parameters: SkillParameters, upgrades: Option<seq<SkillParameters>>, targetingMode: SkillTargeting)

  /**
   * What the generic type arguments guarantee: every parameter record is of
   * the skill's own kind, and so is the targeting mode (ice bolts target a
   * unit, meteors an area).
   */
  predicate WellTyped(d: SkillData) {
    KindOf(d.parameters) == d.kind
    && (d.upgrades.Some? ==> forall k :: 0 <= k < |d.upgrades.value| ==> KindOf(d.upgrades.value[k]) == d.kind)
    && d.targetingMode.kind == (if d.kind == IceBolt then UnitTargeting else AreaTargeting)
  }

  /**
   * An assumption about the authored data, not something the code
   * enforces: every parameter record of the skill has a non-negative mana
   * cost, cooldown and own fields, as the corrected validation would leave
   * it.
   */
  predicate DataNonNegative(d: SkillData) {
    ParametersNonNegative(d.parameters)
    && (d.upgrades.Some? ==> forall k :: 0 <= k < |d.upgrades.value| ==> ParametersNonNegative(d.upgrades.value[k]))
  }

  /** IsExistUpgrade: level 2 and up have an upgrade entry while the list lasts. */
  predicate IsExistUpgrade(d: SkillData, level: int) {
    d.upgrades.Some? && level >= 2 && |d.upgrades.value| > level - 2
  }

  /** IsExistUpgrade in closed form: levels 2 .. count + 1 of a non-null list. */
  lemma ExistUpgradeRange(d: SkillData, level: int)
    ensures IsExistUpgrade(d, level) <==> d.upgrades.Some? && 2 <= level <= |d.upgrades.value| + 1
  {
  }

  /** GetParameters: the level's upgrade entry when it exists, the base parameters otherwise. */
  function GetParameters(d: SkillData, level: int): (r: SkillParameters)
    ensures IsExistUpgrade(d, level) ==> r == d.upgrades.value[level - 2]
    ensures !IsExistUpgrade(d, level) ==> r == d.parameters
  {
    if IsExistUpgrade(d, level) then d.upgrades.value[level - 2] else d.parameters
  }

  /**
   * Levels below 2 and levels past the last upgrade both fall back to the
   * base parameters, so a skill levelled past its list loses its upgrades.
   */
  lemma FallbackToBase(d: SkillData, level: int)
    requires level < 2 || d.upgrades.None? || level > |d.upgrades.value| + 1
    ensures GetParameters(d, level) == d.parameters
  {
  }

  /** The parameters of any level are either the base ones or one of the upgrades, and keep the data's bounds and kind. */
  lemma ParametersOfLevel(d: SkillData, level: int)
    ensures GetParameters(d, level) == d.parameters || (d.upgrades.Some? && GetParameters(d, level) in d.upgrades.value)
    ensures DataNonNegative(d) ==> ParametersNonNegative(GetParameters(d, level))
    ensures WellTyped(d) ==> KindOf(GetParameters(d, level)) == d.kind
  {
  }

  function ManaCostAt(d: SkillData, level: int): int {
    GetParameters(d, level).manaCost
  }

  function CooldownAt(d: SkillData, level: int): real {
    GetParameters(d, level).cooldown
  }

  function DistanceUsingAt(d: SkillData, level: int): real {
    DistanceUsing(GetParameters(d, level))
  }

  /** For data whose records are all non-negative, every level's mana cost, cooldown and usable distance are at least zero. */
  lemma LevelValuesNonNegative(d: SkillData, level: int)
    requires DataNonNegative(d)
    ensures ManaCostAt(d, level) >= 0 && CooldownAt(d, level) >= 0.0 && DistanceUsingAt(d, level) >= 0.0
  {
    ParametersOfLevel(d, level);
  }

  /**
   * GetConfiguredTargetingMode: configure the shared targeting mode with the
   * level's parameters and return that same object. An ice bolt sets the
   * using radius (which throws when negative), a meteor the area radius.
   */
  method GetConfiguredTargetingMode(d: SkillData, level: int) returns (r: Result<SkillTargeting>)
    requires WellTyped(d)
    modifies d.targetingMode
    ensures r.Ok? ==> r.value == d.targetingMode
    ensures d.kind == IceBolt ==>
              (r.Err? <==> DistanceUsingAt(d, level) < 0.0)
              && (r.Ok? ==> d.targetingMode.usingRadius == DistanceUsingAt(d, level))
              && d.targetingMode.areaRadius == old(d.targetingMode.areaRadius)
    ensures d.kind == Meteor ==>
              r.Ok? && d.targetingMode.areaRadius == GetParameters(d, level).blastRadius
              && d.targetingMode.usingRadius == old(d.targetingMode.usingRadius)
    ensures r.Err? ==> r.error == ArgumentOutOfRange && unchanged(d.targetingMode)
  {
    var p := GetParameters(d, level);
    ParametersOfLevel(d, level);
    if d.kind == IceBolt {
      var configured := d.targetingMode.SetupUsingRadius(DistanceUsing(p));
      if configured.Fail? {
        return Err(configured.error);
      }
    } else {
      d.targetingMode.SetupAreaRadius(p.blastRadius);
    }
    r := Ok(d.targetingMode);
  }

  /**
   * VerifyTarget. An ice bolt needs a target and a caster, and an attackable
   * target that is alive and accepts the caster's team; a meteor needs an
   * area target.
   */
  predicate VerifyTarget(kind: SkillKind, target: Option<Target>, caster: Option<Team>, state: TargetState) {
    match kind
    case IceBolt =>
      target.Some? && caster.Some? && IsAttackable(target.value) && state.alive && caster.value == state.attackableBy
    case Meteor => target.Some? && target.value.AreaTarget?
  }

  /** An ice bolt is never aimed at the ground and a meteor never at a unit or building. */
  lemma TargetKindsDisjoint(target: Target, caster: Option<Team>, state: TargetState)
    ensures VerifyTarget(IceBolt, Some(target), caster, state) ==> target.UnitTarget? || target.ThroneTarget?
    ensures VerifyTarget(Meteor, Some(target), caster, state) ==> target.AreaTarget?
    ensures !(VerifyTarget(IceBolt, Some(target), caster, state) && VerifyTarget(Meteor, Some(target), caster, state))
  {
  }

  /** What a cast asks of the world: an arrow from the pool flying at a target, or a meteor shower over an area. */
  datatype SkillUse =
    | IceBoltLaunch(arrowPrefab: nat, target: Target, arrowSpeed: real, effectFreeze: nat)
    | MeteorShowerSetup(meteorShowerPrefab: nat, area: Target, damage: real)

  /**
   * LaunchIceBolt: a null owner, target or pool throws ArgumentNullException,
   * in that order; the arrow, its speed and the freeze effect come from the
   * given level's parameters.
   */
  function LaunchIceBolt(d: SkillData, owner: bool, target: Option<Target>, level: int, pool: bool): (r: Result<SkillUse>)
    requires WellTyped(d) && d.kind == IceBolt
    ensures r.Err? <==> !owner || target.None? || !pool
    ensures r.Err? ==> r.error == ArgumentNull
    ensures r.Ok? ==> var p := GetParameters(d, level);
                      r.value == IceBoltLaunch(p.arrowPrefab, target.value, p.arrowSpeed, p.effectFreeze)
  {
    ParametersOfLevel(d, level);
    if !owner || target.None? || !pool then Err(ArgumentNull)
    else
      var p := GetParameters(d, level);
      Ok(IceBoltLaunch(p.arrowPrefab, target.value, p.arrowSpeed, p.effectFreeze))
  }

  /**
   * CreateMeteorShower: a null owner, targets provider, target or pool
   * throws ArgumentNullException; the prefab and damage come from the given
   * level's parameters.
   */
  function CreateMeteorShower(d: SkillData, owner: bool, provider: bool, target: Option<Target>, level: int, pool: bool)
    : (r: Result<SkillUse>)
    requires WellTyped(d) && d.kind == Meteor
    requires target.Some? ==> target.value.AreaTarget?
    ensures r.Err? <==> !owner || !provider || target.None? || !pool
    ensures r.Err? ==> r.error == ArgumentNull
    ensures r.Ok? ==> var p := GetParameters(d, level);
                      r.value == MeteorShowerSetup(p.meteorShowerPrefab, target.value, p.damage)
  {
    ParametersOfLevel(d, level);
    if !owner || !provider || target.None? || !pool then Err(ArgumentNull)
    else
      var p := GetParameters(d, level);
      Ok(MeteorShowerSetup(p.meteorShowerPrefab, target.value, p.damage))
  }

  // ---------------------------------------------------------------- the skill object

  const StartingLevel: int := 1

  /**
   * Skill<T>: a level and a recharge timer over shared data. `id` stands for
   * the object itself, which the timer reports as its countdowned object.
   */
  class Skill {
    const id: nat
    const data: SkillData
    const timer: TimerCountdown
    var level: int
    var countdown: real

    /** The constructor after its null check: level 1 and a stopped timer. */
    constructor (id: nat, data: SkillData)
      ensures this.id == id && this.data == data && level == StartingLevel
      ensures fresh(timer) && timer.countdowned == id && timer.events == [Finish(id)]
      ensures !IsCooldownStarted() && !timer.scheduled
    {
      this.id := id;
      this.data := data;
      level := StartingLevel;
      countdown := 0.0;
      timer := new TimerCountdown(id, "will be recharged after", 0.0);
      new;
      timer.StopCountdown();
    }

    /** A null skill data throws ArgumentNullException. */
    static method Create(id: nat, data: Option<SkillData>) returns (r: Result<Skill>)
      ensures r.Err? <==> data.None?
      ensures r.Err? ==> r.error == ArgumentNull
      ensures r.Ok? ==> fresh(r.value) && fresh(r.value.timer) && r.value.data == data.value
                        && r.value.level == StartingLevel && !r.value.IsCooldownStarted()
    {
      if data.None? {
        return Err(ArgumentNull);
      }
      var skill := new Skill(id, data.value);
      r := Ok(skill);
    }

    function ManaCost(): int
      reads this`level
    {
      ManaCostAt(data, level)
    }

    function SkillDistanceUsing(): real
      reads this`level
    {
      DistanceUsingAt(data, level)
    }

    /** CanLevelUp: the next level has an upgrade entry. */
    predicate CanLevelUp()
      reads this`level
      ensures CanLevelUp() <==> data.upgrades.Some? && 1 <= level <= |data.upgrades.value|
    {
      ExistUpgradeRange(data, level + 1);
      IsExistUpgrade(data, level + 1)
    }

    /** IsCooldownStarted: the recharge timer is ticking. */
    predicate IsCooldownStarted()
      reads timer`countdown
      ensures IsCooldownStarted() <==> timer.countdown > 0.0
    {
      timer.IsTicking()
    }

    /** IsTargetCorrect: the data's VerifyTarget. */
    predicate IsTargetCorrect(target: Option<Target>, caster: Option<Team>, state: TargetState)
      ensures IsTargetCorrect(target, caster, state) ==> target.Some?
      ensures data.kind == Meteor ==> (IsTargetCorrect(target, caster, state) <==> target.Some? && target.value.AreaTarget?)
      ensures data.kind == IceBolt && IsTargetCorrect(target, caster, state) ==>
                caster.Some? && IsAttackable(target.value) && state.alive && state.attackableBy == caster.value
    {
      VerifyTarget(data.kind, target, caster, state)
    }

    /** LevelUp: one level more, and any running cooldown is stopped. */
    method LevelUp()
      modifies this`level, timer`countdown, timer`scheduled, timer`events
      ensures level == old(level) + 1 && !IsCooldownStarted() && !timer.scheduled
      ensures timer.events == old(timer.events) + [Finish(timer.countdowned)]
    {
      level := level + 1;
      timer.StopCountdown();
    }

    /** StartRecharging: count down the current level's cooldown. */
    method StartRecharging() returns (r: Outcome)
      modifies this`countdown, timer`countdown, timer`scheduled, timer`period
      ensures countdown == CooldownAt(data, level)
      ensures r.Fail? <==> CooldownAt(data, level) < 0.0
      ensures r.Done? ==> timer.countdown == CooldownAt(data, level) && timer.scheduled
      ensures r.Done? ==> (IsCooldownStarted() <==> CooldownAt(data, level) > 0.0)
      ensures r.Fail? ==> r.error == ArgumentOutOfRange && unchanged(timer)
    {
      countdown := CooldownAt(data, level);
      r := timer.StartCountdown(countdown);
    }

    /**
     * UseSkill of SkillIceBolt and SkillMeteor: cast at the current level,
     * then start recharging. A meteor aimed at anything but an area throws
     * ArgumentException first.
     */
    method UseSkill(target: Option<Target>, owner: bool, provider: bool, pool: bool) returns (r: Result<SkillUse>)
      requires WellTyped(data)
      modifies this`countdown, timer`countdown, timer`scheduled, timer`period
      ensures data.kind == IceBolt ==>
                var cast := LaunchIceBolt(data, owner, target, level, pool);
                (cast.Err? ==> r == cast && unchanged(this, timer))
                && (cast.Ok? ==> (r.Ok? ==> r == cast) && (CooldownAt(data, level) >= 0.0 ==> r == cast))
      ensures data.kind == Meteor && (target.None? || !target.value.AreaTarget?) ==>
                r == Err(Argument) && unchanged(this, timer)
      ensures data.kind == Meteor && target.Some? && target.value.AreaTarget? ==>
                var cast := CreateMeteorShower(data, owner, provider, target, level, pool);
                (cast.Err? ==> r == cast && unchanged(this, timer))
                && (cast.Ok? ==> (r.Ok? ==> r == cast) && (CooldownAt(data, level) >= 0.0 ==> r == cast))
      ensures r.Ok? ==> IsCooldownStarted() == (CooldownAt(data, level) > 0.0) && countdown == CooldownAt(data, level)
      ensures CooldownAt(data, level) >= 0.0 && r.Err? ==> unchanged(this, timer)
    {
      var cast: Result<SkillUse>;
      if data.kind == IceBolt {
        cast := LaunchIceBolt(data, owner, target, level, pool);
      } else {
        if target.None? || !target.value.AreaTarget? {
          return Err(Argument);
        }
        cast := CreateMeteorShower(data, owner, provider, target, level, pool);
      }
      if cast.Err? {
        return cast;
      }
      var recharged := StartRecharging();
      if recharged.Fail? {
        return Err(recharged.error);
      }
      r := cast;
    }
  }
}
