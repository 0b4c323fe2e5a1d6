/**
 * Unit and its subclasses UnitFriendly (UnitMinion), UnitEnemy and Hero as
 * one class: `kind` selects the overridden members. The unit's world is
 * given from outside: `view` reports the live state of every target (the
 * IsNullOrMissing test, its position, whether it is alive and which team
 * may attack it) and `distanceTo` the flat distance from this unit to a
 * target. What the unit does to the world and tells its listeners is
 * appended to `actions`.
 */
module Units {
  import opened Wrappers
  import opened Geometry
  import opened Targets
  import opened UnitParams
  import opened LevelTables
  import opened Health
  import opened Timers
  import opened Skills
  import opened Strategies
  import opened Combat

  /** The installed target-handle strategy: the default attack, or casting one of the hero's skills. */
  datatype Strategy = AttackStrategy | UseSkillStrategy(skill: Skill)

  /** One thing a unit did or announced. */
  datatype Action =
    | Fire(target: Target)                       // weapon.Attack
    | Highlight(target: Target, show: bool)      // the target's HighlightTarget
    | SelectionShown(show: bool)                 // UpdateSelection
    | SelfTargetShown(show: bool)                // UpdateSelfTarget
    | HealthChanged(health: int, fullness: real) // OnHealthChanges
    | EffectsCleared                             // EffectsInspector.ClearEffects
    | Died                                       // OnDie
    | StopShowing                                // OnStopShowing
    | ReturnedToPool                             // DestroyAsPoolableObject: OnDie handlers dropped, back to the pool
    | Faded(visible: bool)                       // a hero's collider and material switched on or off
    | RebornAfterDeath                           // OnRebornAfterDeath
    | SelectingSkillTarget(index: int)           // OnSelectingSkillTarget with a selecting request
    | SelectingCanceled                          // OnSelectingSkillTarget with the cancelation
    | ButtonChanged(button: SkillButton)         // OnButtonChange
    | ButtonsChanged(buttons: seq<SkillButton>)  // OnButtonsChanges
    | LevelUpButtonsChanged(indexes: seq<int>)   // OnButtonsLevelUpsChanges
    | HeroDataChanged(level: int, exp: int)      // OnHeroResourcesDataChange
    | Cast(use: SkillUse)                        // a skill's effect set loose

  /** UpdateTargetCircleAt: a present target is highlighted or not; a null or missing one is left alone. */
  function CircleAt(t: Option<Target>, show: bool, view: Target -> TargetState): (r: seq<Action>)
    ensures r == [] <==> t.None? || view(t.value).missing
    ensures r != [] ==> r == [Highlight(t.value, show)]
  {
    if t.Some? && !view(t.value).missing then [Highlight(t.value, show)] else []
  }

  /** SetNewTarget's highlights: only a selected unit moves the circle, and only when the target changes. */
  function NewTargetLog(current: Option<Target>, next: Option<Target>, selected: bool, view: Target -> TargetState)
    : (r: seq<Action>)
    ensures current == next || !selected ==> r == []
    ensures current != next && selected ==> r == CircleAt(current, false, view) + CircleAt(next, true, view)
  {
    if current == next || !selected then [] else CircleAt(current, false, view) + CircleAt(next, true, view)
  }

  /** ResetTarget's highlights: the circle is taken off the old target, then SetNewTarget(null) runs. */
  function ResetLog(current: Option<Target>, selected: bool, view: Target -> TargetState): seq<Action> {
    CircleAt(current, false, view) + NewTargetLog(current, None, selected, view)
  }

  /**
   * The tail of Die after ResetTarget: effects cleared, OnDie, OnStopShowing,
   * deselection (there is no target left to un-highlight), the self-target
   * circle hidden, then DieFinalize: a hero fades out, any other unit goes
   * back to the pool.
   */
  function DeathTail(kind: UnitKind): seq<Action> {
    [EffectsCleared, Died, StopShowing, SelectionShown(false), SelfTargetShown(false)]
    + (if kind == HeroUnit then [Faded(false)] else [ReturnedToPool])
  }

  /** The number of OnDie announcements in a stretch of the log. */
  function Deaths(log: seq<Action>): (n: nat)
    ensures n <= |log|
  {
    if log == [] then 0 else Deaths(log[..|log| - 1]) + (if log[|log| - 1] == Died then 1 else 0)
  }

  lemma {:induction false} DeathsAppend(a: seq<Action>, b: seq<Action>)
    ensures Deaths(a + b) == Deaths(a) + Deaths(b)
    decreases |b|
  {
    if b != [] {
      assert (a + b)[..|a + b| - 1] == a + b[..|b| - 1];
      DeathsAppend(a, b[..|b| - 1]);
    } else {
      assert a + b == a;
    }
  }

  lemma {:induction false} NoDeaths(log: seq<Action>)
    requires Died !in log
    ensures Deaths(log) == 0
    decreases |log|
  {
    if log != [] {
      NoDeaths(log[..|log| - 1]);
    }
  }

  /** Die's events, whatever the hero's cancelation, announce OnDie exactly once. */
  lemma DiesOnce(cancel: seq<Action>, current: Option<Target>, selected: bool, view: Target -> TargetState,
                 kind: UnitKind)
    requires Deaths(cancel) == 0
    ensures Deaths(cancel + ResetLog(current, selected, view) + DeathTail(kind)) == 1
  {
    ResetLogQuiet(current, selected, view);
    TailDiesOnce(kind);
    DeathsAppend(cancel, ResetLog(current, selected, view));
    DeathsAppend(cancel + ResetLog(current, selected, view), DeathTail(kind));
  }

  /** Moving the highlight never announces a death. */
  lemma ResetLogQuiet(current: Option<Target>, selected: bool, view: Target -> TargetState)
    ensures Deaths(ResetLog(current, selected, view)) == 0
  {
    var circle := CircleAt(current, false, view);
    assert Deaths(circle) == 0 by {
      if circle != [] {
        assert circle[..0] == [];
      }
    }
    assert ResetLog(current, selected, view) == circle || ResetLog(current, selected, view) == circle + circle;
    DeathsAppend(circle, circle);
  }

  /** Die's tail announces exactly one death. */
  lemma TailDiesOnce(kind: UnitKind)
    ensures Deaths(DeathTail(kind)) == 1
  {
    var t := DeathTail(kind);
    assert t[..1][..0] == [];
    assert Deaths(t[..1]) == 0;
    assert t[..2][..1] == t[..1];
    assert Deaths(t[..2]) == 1;
    assert t[..3][..2] == t[..2];
    assert t[..4][..3] == t[..3];
    assert t[..5][..4] == t[..4];
    assert t[..6][..5] == t[..5] && t[..6] == t;
    assert Deaths(t[..3]) == Deaths(t[..4]) == Deaths(t[..5]) == Deaths(t) == 1;
  }

  /** Appending three stretches one after another appends their concatenation. */
  lemma Regroup(a: seq<Action>, b: seq<Action>, c: seq<Action>, d: seq<Action>)
    ensures a + b + c + d == a + (b + c + d)
  {
  }

  /** What follows a stretch `middle` and one health event counts the deaths of `middle`. */
  lemma DeathsAfter(start: seq<Action>, middle: seq<Action>, health: Action)
    requires health.HealthChanged?
    ensures Deaths((start + middle + [health])[|start|..]) == Deaths(middle)
  {
    assert (start + middle + [health])[|start|..] == middle + [health];
    assert (middle + [health])[..|middle|] == middle;
  }

  /** The mana costs of the skills at their current levels. */
  function ManaCostsOf(skills: seq<Skill>): (r: seq<int>)
    reads skills`level
    ensures |r| == |skills| && forall k :: 0 <= k < |skills| ==> r[k] == skills[k].ManaCost()
  {
    if skills == [] then [] else ManaCostsOf(skills[..|skills| - 1]) + [skills[|skills| - 1].ManaCost()]
  }

  /**
   * CancelSelecting's events for skills costing `costs`, when `activated`
   * is the activated button and the hero has `mana`: an activated button is
   * redrawn unflashing, then the cancelation is announced.
   */
  function CancelLog(costs: seq<int>, activated: int, mana: int): seq<Action> {
    (if 0 <= activated < |costs| then [ButtonChanged(ButtonFor(activated, costs[activated], mana, false))] else [])
    + [SelectingCanceled]
  }

  /**
   * What a successful UseSkillOnTarget announces: the cast, the cancelled
   * selecting, and the redrawn buttons, none of them flashing.
   */
  function SkillUseLog(use: SkillUse, costs: seq<int>, activated: int, mana: int): seq<Action> {
    [Cast(use)] + CancelLog(costs, activated, mana) + [ButtonsChanged(ButtonsAsWritten(costs, mana, NoSkillButtonsActivated))]
  }

  /** SkillsCanLevelUp: the skills whose next level exists, in order. */
  function CanLevelUpOf(skills: seq<Skill>): (r: seq<Skill>)
    reads skills`level
    ensures |r| <= |skills|
    ensures forall s :: s in r ==> s in skills && s.CanLevelUp()
    ensures forall s :: s in skills && s.CanLevelUp() ==> s in r
  {
    if skills == [] then []
    else
      var last := skills[|skills| - 1];
      CanLevelUpOf(skills[..|skills| - 1]) + (if last.CanLevelUp() then [last] else [])
  }

  /** List.IndexOf: the first position of a skill, or -1. */
  function IndexOf(skills: seq<Skill>, skill: Skill): (i: int)
    ensures -1 <= i < |skills|
    ensures i == -1 <==> skill !in skills
    ensures 0 <= i ==> skills[i] == skill && forall k :: 0 <= k < i ==> skills[k] != skill
  {
    if skills == [] then -1
    else if skills[0] == skill then 0
    else
      var i := IndexOf(skills[1..], skill);
      if i == -1 then -1 else i + 1
  }

  /**
   * What a hero's skill.UseSkill(target, hero) yields: the injected
   * owner, targets provider and pool are all present, so only a missing
   * target, or a meteor aimed at anything but an area, fails.
   */
  function CastOf(skill: Skill, t: Option<Target>): (r: Result<SkillUse>)
    requires WellTyped(skill.data)
    reads skill`level
    ensures r.Err? <==> t.None? || (skill.data.kind == Meteor && !t.value.AreaTarget?)
  {
    if skill.data.kind == IceBolt then LaunchIceBolt(skill.data, true, t, skill.level, true)
    else if t.None? || !t.value.AreaTarget? then Err(Argument)
    else CreateMeteorShower(skill.data, true, true, t, skill.level, true)
  }

  /**
   * The parameters in force are valid and keep the base parameters' heal
   * points and armour (decorators only change the speed); a hero ignores
   * the decorators.
   */
  predicate UnitParametersValid(kind: UnitKind, base: UnitParameters, provider: Provider) {
    var p := if kind == HeroUnit then base else ParametersOf(provider, base);
    UnitParams.Valid(base) && UnitParams.Valid(p) && p.healPointsMax == base.healPointsMax && p.armor == base.armor
  }

  /** A hero's validated data, a level of at least 1, mana within [0, ManaPointsMax], a real or no activated button. */
  predicate HeroStateValid(d: HeroData, level: int, mana: int, activated: int, skillCount: nat) {
    HeroDataValid(d) && level >= HeroStartingLevel && 0 <= mana <= ManaPointsMaxAt(d, level)
    && (activated == NoSkillButtonsActivated || 0 <= activated < skillCount)
  }

  /**
   * Only heroes have skills and use them; every skill's data, and the data
   * of the skill being used, is well typed and, by assumption, has no
   * negative mana cost or cooldown at any level.
   */
  predicate SkillsValid(kind: UnitKind, skills: seq<Skill>, strategy: Strategy) {
    (kind != HeroUnit ==> skills == [] && strategy == AttackStrategy)
    && (forall k :: 0 <= k < |skills| ==> WellTyped(skills[k].data) && DataNonNegative(skills[k].data))
    && (strategy.UseSkillStrategy? ==> WellTyped(strategy.skill.data) && DataNonNegative(strategy.skill.data))
  }

  class Unit {
    const id: UnitId
    const kind: UnitKind
    /** UnitDataEnemy.ExpForDie, clamped to at least 0 (enemies only). */
    const expForDie: int
    /** The hero's HeroData (heroes only). */
    const heroData: HeroData
    var hp: int
    /** What the base parameters provider reports; a hero's currentParameters. */
    var baseParameters: UnitParameters
    /** The chain of decorators on the base provider; a hero ignores it. */
    var provider: Provider
    var attackRecharge: real
    var lastTargetFindTime: real
    var target: Option<Target>
    var strategy: Strategy
    var isSelected: bool
    /** UnitFriendly.targetIsAssigned. */
    var targetIsAssigned: bool
    var actions: seq<Action>
    /** The point the unit last turned toward (LookAt) and last stepped toward (MoveTo). */
    var turnedTo: Option<Vec3>
    var steppedTo: Option<Vec3>
    // Hero state.
    var level: int
    var exp: int
    var skillPoints: int
    var manaPoints: int
    var activatedSkillButton: int
    var skills: seq<Skill>

    /** The parameters in force: a hero's own current parameters, any other unit's provider chain. */
    function Parameters(): UnitParameters
      reads this`baseParameters, this`provider
    {
      if kind == HeroUnit then baseParameters else ParametersOf(provider, baseParameters)
    }

    /** IsAlive. */
    predicate IsAlive()
      reads this`hp
    {
      hp > 0
    }

    /** Hero.ManaPointsMax: the data's maximum at the current level. */
    function ManaPointsMax(): int
      reads this`level
    {
      ManaPointsMaxAt(heroData, level)
    }

    /**
     * What holds between the calls: validated parameters and data, health
     * at most its maximum, a hero's mana within [0, ManaPointsMax] and its
     * activated button naming one of its skills; only heroes have skills,
     * and a use-skill strategy names one of them.
     */
    predicate Valid()
      reads this`baseParameters, this`provider, this`hp, this`level, this`manaPoints, this`activatedSkillButton,
            this`skills, this`strategy
    {
      UnitParametersValid(kind, baseParameters, provider)
      && hp <= baseParameters.healPointsMax
      && (kind == HeroUnit ==> HeroStateValid(heroData, level, manaPoints, activatedSkillButton, |skills|))
      && SkillsValid(kind, skills, strategy)
    }

    /** The skills and their timers: everything a hero's skill handling may change. */
    function SkillObjects(): set<object>
      reads this`skills
    {
      (set s | s in skills :: s as object) + (set s | s in skills :: s.timer as object)
    }

    /** The health event UpdateShowableHealth raises: the heal points and their fraction of the maximum. */
    function HealthAction(): Action
      reads this`hp, this`baseParameters, this`provider
    {
      HealthChanged(hp, Fullness(hp, Parameters().healPointsMax))
    }

    /**
     * A unit as the factory hands it out after Start: validated data,
     * full health, a ready attack, no target, the attack strategy, not
     * selected. A hero starts at level 1 with full mana and the given skills.
     */
    constructor (id: UnitId, kind: UnitKind, parameters: UnitParameters, expForDie: int, heroData: HeroData,
                 skills: seq<Skill>)
      requires kind != HeroUnit ==> skills == []
      requires forall k :: 0 <= k < |skills| ==> WellTyped(skills[k].data) && DataNonNegative(skills[k].data)
      ensures Valid() && IsAlive()
      ensures this.id == id && this.kind == kind && this.skills == skills
      ensures kind != HeroUnit ==> baseParameters == ValidateValues(parameters) && provider == BaseProvider
      ensures kind == HeroUnit ==> baseParameters == ValidateHeroData(heroData).parameters
      ensures hp == baseParameters.healPointsMax && attackRecharge == AttackRechargeMax
      ensures target.None? && strategy == AttackStrategy && !isSelected && !targetIsAssigned
      ensures kind == HeroUnit ==> level == HeroStartingLevel && exp == 0 && skillPoints == 0
                                   && manaPoints == ManaPointsMax()
                                   && activatedSkillButton == NoSkillButtonsActivated
      ensures actions == [SelectionShown(false), SelfTargetShown(false)]
      ensures turnedTo.None? && steppedTo.None?
    {
      this.id := id;
      this.kind := kind;
      this.expForDie := if expForDie < 0 then 0 else expForDie;
      var data := ValidateHeroData(heroData);
      this.heroData := data;
      var base := if kind == HeroUnit then data.parameters else ValidateValues(parameters);
      baseParameters := base;
      provider := BaseProvider;
      hp := base.healPointsMax;
      attackRecharge := AttackRechargeMax;
      lastTargetFindTime := 0.0;
      target := None;
      strategy := AttackStrategy;
      isSelected := false;
      targetIsAssigned := false;
      actions := [SelectionShown(false), SelfTargetShown(false)];
      turnedTo := None;
      steppedTo := None;
      level := HeroStartingLevel;
      exp := 0;
      skillPoints := 0;
      manaPoints := ClampMana(ManaPointsMaxAt(data, HeroStartingLevel), ManaPointsMaxAt(data, HeroStartingLevel));
      activatedSkillButton := NoSkillButtonsActivated;
      this.skills := skills;
      new;
      ManaPointsMaxMonotone(data, HeroStartingLevel);
    }

    // ------------------------------------------------------------ parameters

    /** SetParameters: a null provider throws; otherwise the provider is replaced. */
    method SetParameters(p: Option<Provider>) returns (r: Outcome)
      requires Valid()
      modifies this`provider
      ensures Valid()
      ensures r.Fail? <==> p.None?
      ensures r.Fail? ==> r.error == ArgumentNull && provider == old(provider)
      ensures r.Done? ==> provider == p.value
    {
      if p.None? {
        return Fail(ArgumentNull);
      }
      DecoratorsKeepOtherFields(p.value, baseParameters);
      provider := p.value;
      r := Done;
    }

    /**
     * UnpackDecorator of the speed decorator `decorator`: only while it is
     * the unit's current provider is the provider it wraps put back.
     */
    method UnpackDecorator(decorator: nat)
      requires Valid()
      modifies this`provider
      ensures Valid()
      ensures old(provider).ModifiedSpeed? && old(provider).id == decorator ==> provider == old(provider).inner
      ensures !(old(provider).ModifiedSpeed? && old(provider).id == decorator) ==> provider == old(provider)
    {
      if provider.ModifiedSpeed? && provider.id == decorator {
        DecoratorsKeepOtherFields(provider.inner, baseParameters);
        provider := provider.inner;
      }
    }

    /** UpdateParametersPoints of a minion or an enemy: back to full health. */
    method UpdateParametersPoints()
      requires Valid() && kind != HeroUnit
      modifies this`hp
      ensures Valid() && hp == Parameters().healPointsMax && IsAlive()
    {
      hp := Parameters().healPointsMax;
    }

    // ------------------------------------------------------------ targets

    /** SetNewTarget: the same target changes nothing; otherwise a selected unit moves its highlight. */
    method SetNewTarget(newTarget: Option<Target>, view: Target -> TargetState)
      requires Valid()
      modifies this`target, this`actions
      ensures Valid()
      ensures target == newTarget
      ensures actions == old(actions) + NewTargetLog(old(target), newTarget, isSelected, view)
    {
      if target == newTarget {
        return;
      }
      if isSelected {
        actions := actions + CircleAt(target, false, view) + CircleAt(newTarget, true, view);
      }
      target := newTarget;
    }

    /**
     * ResetTarget: un-highlight and drop the target and reinstall the attack
     * strategy; a friendly unit also forgets that the target was assigned.
     */
    method ResetTarget(view: Target -> TargetState)
      requires Valid()
      modifies this`target, this`actions, this`strategy, this`targetIsAssigned
      ensures Valid()
      ensures target.None? && strategy == AttackStrategy
      ensures targetIsAssigned == (kind == EnemyUnit && old(targetIsAssigned))
      ensures actions == old(actions) + ResetLog(old(target), isSelected, view)
    {
      actions := actions + CircleAt(target, false, view);
      SetNewTarget(None, view);
      strategy := AttackStrategy;
      if kind != EnemyUnit {
        targetIsAssigned := false;
      }
    }

    /** SetTargetManually: SetNewTarget, and a friendly unit marks the target as assigned. */
    method SetTargetManually(newTarget: Option<Target>, view: Target -> TargetState)
      requires Valid()
      modifies this`target, this`actions, this`targetIsAssigned
      ensures Valid()
      ensures target == newTarget
      ensures targetIsAssigned == (kind != EnemyUnit || old(targetIsAssigned))
      ensures actions == old(actions) + NewTargetLog(old(target), newTarget, isSelected, view)
    {
      SetNewTarget(newTarget, view);
      if kind != EnemyUnit {
        targetIsAssigned := true;
      }
    }

    /** SetSelected: show or hide the selection circle and the highlight on the current target. */
    method SetSelected(selected: bool, view: Target -> TargetState)
      requires Valid()
      modifies this`isSelected, this`actions
      ensures Valid()
      ensures isSelected == selected
      ensures actions == old(actions) + [SelectionShown(selected)] + CircleAt(target, selected, view)
    {
      isSelected := selected;
      actions := actions + [SelectionShown(selected)] + CircleAt(target, selected, view);
    }

    /** IsAssignedTargetExists: an assigned target that is still present. */
    predicate AssignedTargetExists(view: Target -> TargetState)
      reads this`targetIsAssigned, this`target
    {
      targetIsAssigned && target.Some? && !view(target.value).missing
    }

    /**
     * FindTarget: unless the current target is present and the last search
     * is less than half a second old, search again at time `now` and take
     * what FindNextTarget picks. `nearest` is the closest opponent the
     * targets provider reports, `nearestDistance` its flat distance.
     */
    method FindTarget(now: real, view: Target -> TargetState, nearest: Option<UnitId>, nearestDistance: real)
      requires Valid()
      modifies this`lastTargetFindTime, this`target, this`actions
      ensures Valid()
      ensures old(actions) <= actions && lastTargetFindTime in {old(lastTargetFindTime), now}
      ensures var missing := old(target).None? || view(old(target).value).missing;
              !SearchDue(missing, now, old(lastTargetFindTime)) ==> unchanged(this)
      ensures var missing := old(target).None? || view(old(target).value).missing;
              SearchDue(missing, now, old(lastTargetFindTime)) ==>
                var next := NextTarget(kind, old(AssignedTargetExists(view)), old(target), nearest, nearestDistance);
                lastTargetFindTime == now && target == next
                && actions == old(actions) + NewTargetLog(old(target), next, isSelected, view)
    {
      var missing := target.None? || view(target.value).missing;
      if !SearchDue(missing, now, lastTargetFindTime) {
        return;
      }
      lastTargetFindTime := now;
      var next := NextTarget(kind, AssignedTargetExists(view), target, nearest, nearestDistance);
      SetNewTarget(next, view);
    }

    // ------------------------------------------------------------ attacking

    /** Attack: a ready attack fires the weapon at the target and starts recharging from 0. */
    method Attack(t: Target)
      requires Valid()
      modifies this`attackRecharge, this`actions
      ensures Valid()
      ensures old(attackRecharge) < AttackRechargeMax ==> unchanged(this)
      ensures old(attackRecharge) >= AttackRechargeMax ==>
                attackRecharge == AttackRechargeMin && actions == old(actions) + [Fire(t)]
    {
      if attackRecharge < AttackRechargeMax {
        return;
      }
      attackRecharge := AttackRechargeMin;
      actions := actions + [Fire(t)];
    }

    /** RechargeAttack over a frame of `deltaTime` seconds. */
    method RechargeAttack(deltaTime: real)
      requires Valid()
      modifies this`attackRecharge
      ensures Valid()
      ensures attackRecharge == Recharged(old(attackRecharge), Parameters().attackSpeed, deltaTime)
    {
      if attackRecharge < AttackRechargeMax {
        attackRecharge := attackRecharge + Parameters().attackSpeed * deltaTime;
      }
    }

    // ------------------------------------------------------------ hero buttons

    /** CreateButtonDataForSkill for the skill at `index`. */
    function ButtonAt(index: int, isFlashing: bool): SkillButton
      requires 0 <= index < |skills|
      reads this`skills, this`manaPoints, skills`level
    {
      ButtonFor(index, skills[index].ManaCost(), manaPoints, isFlashing)
    }

    /**
     * GetButtons as the hero runs it: one button per skill, with the
     * post-incremented counter making button i flash when the activated
     * index is i + 1.
     */
    function GetButtons(): (r: seq<SkillButton>)
      reads this`skills, this`manaPoints, this`activatedSkillButton, skills`level
      ensures |r| == |skills|
      ensures forall i :: 0 <= i < |r| ==>
                r[i].index == i && (r[i].isActive <==> skills[i].ManaCost() <= manaPoints)
                && (r[i].isFlashing <==> i + 1 == activatedSkillButton)
      ensures 0 <= activatedSkillButton < |skills| ==> !r[activatedSkillButton].isFlashing
    {
      ButtonsAsWritten(ManaCostsOf(skills), manaPoints, activatedSkillButton)
    }

    /**
     * GetButtonsLevelUps: without a skill point no button; otherwise one
     * button per skill that can still level up, numbered 0, 1, ... in the
     * order of the hero's skills.
     */
    function GetButtonsLevelUps(): (r: seq<int>)
      reads this`skills, this`skillPoints, skills`level
      ensures skillPoints < 1 ==> r == []
      ensures skillPoints >= 1 ==> |r| == |CanLevelUpOf(skills)| && forall i :: 0 <= i < |r| ==> r[i] == i
      ensures |r| <= |skills|
    {
      LevelUpButtons(|CanLevelUpOf(skills)|, skillPoints)
    }

    /** CancelSelecting's events for this hero's skills at their current levels. */
    function CancelLogAt(activated: int, mana: int): seq<Action>
      reads this`skills, skills`level
    {
      CancelLog(ManaCostsOf(skills), activated, mana)
    }

    /** Cancelling skill selecting never announces a death. */
    lemma CancelQuiet(activated: int, mana: int)
      ensures Deaths(CancelLogAt(activated, mana)) == 0
    {
      var log := CancelLogAt(activated, mana);
      assert log[..|log| - 1] == [] || log[..|log| - 1][..0] == [];
    }

    /** Everything Die announces, from the current state. */
    function DieLog(view: Target -> TargetState): seq<Action>
      reads this`skills, this`activatedSkillButton, this`manaPoints, this`target, this`isSelected, skills`level
    {
      (if kind == HeroUnit then CancelLogAt(activatedSkillButton, manaPoints) else [])
      + ResetLog(target, isSelected, view) + DeathTail(kind)
    }

    /** CancelSelecting: forget the activated button and announce the cancelation. */
    method CancelSelecting()
      requires Valid() && kind == HeroUnit
      modifies this`activatedSkillButton, this`actions
      ensures Valid()
      ensures activatedSkillButton == NoSkillButtonsActivated
      ensures actions == old(actions + CancelLogAt(activatedSkillButton, manaPoints))
    {
      if activatedSkillButton != NoSkillButtonsActivated {
        actions := actions + [ButtonChanged(ButtonAt(activatedSkillButton, false))];
        activatedSkillButton := NoSkillButtonsActivated;
      }
      actions := actions + [SelectingCanceled];
    }

    // ------------------------------------------------------------ damage, healing, death

    /**
     * Die: a hero first cancels skill selecting; then the target is reset,
     * effects cleared, OnDie and OnStopShowing raised, the unit deselected
     * and finalized.
     */
    method Die(view: Target -> TargetState)
      requires Valid()
      modifies this`target, this`actions, this`strategy, this`targetIsAssigned, this`isSelected,
               this`activatedSkillButton
      ensures Valid()
      ensures target.None? && strategy == AttackStrategy && !isSelected
      ensures targetIsAssigned == (kind == EnemyUnit && old(targetIsAssigned))
      ensures activatedSkillButton == (if kind == HeroUnit then NoSkillButtonsActivated else old(activatedSkillButton))
      ensures actions == old(actions + DieLog(view))
    {
      ghost var cancel := if kind == HeroUnit then CancelLogAt(activatedSkillButton, manaPoints) else [];
      ghost var reset := ResetLog(target, isSelected, view);
      ghost var start := actions;
      ghost var log := DieLog(view);
      assert log == cancel + reset + DeathTail(kind);
      if kind == HeroUnit {
        CancelSelecting();
      }
      assert actions == start + cancel;
      Expire(view);
      Regroup(start, cancel, reset, DeathTail(kind));
    }

    /**
     * Die after the hero's cancelation: the target reset, effects cleared,
     * OnDie and OnStopShowing raised, the unit deselected, then DieFinalize.
     */
    method Expire(view: Target -> TargetState)
      requires Valid()
      modifies this`target, this`actions, this`strategy, this`targetIsAssigned, this`isSelected
      ensures Valid()
      ensures target.None? && strategy == AttackStrategy && !isSelected
      ensures targetIsAssigned == (kind == EnemyUnit && old(targetIsAssigned))
      ensures actions == old(actions + ResetLog(target, isSelected, view)) + DeathTail(kind)
    {
      ResetTarget(view);
      // With no target left, SetSelected(false) only hides the selection circle.
      isSelected := false;
      actions := actions + DeathTail(kind);
    }

    /** Unit.ApplyDamage: armour-reduced damage; the hit that ends a life runs Die; the health event follows. */
    method TakeDamage(damage: real, view: Target -> TargetState) returns (r: Outcome)
      requires Valid()
      modifies this`hp, this`target, this`actions, this`strategy, this`targetIsAssigned, this`isSelected,
               this`activatedSkillButton
      ensures Valid()
      ensures r.Fail? <==> damage < 0.0
      ensures r.Fail? ==> r.error == ArgumentOutOfRange
      ensures r.Fail? || old(hp) <= 0 ==> unchanged(this)
      ensures r.Done? && old(hp) > 0 ==> Hit(old(hp), damage, view)
      ensures Deaths(actions[|old(actions)|..]) == (if old(hp) > 0 && hp <= 0 then 1 else 0)
    {
      if damage < 0.0 {
        return Fail(ArgumentOutOfRange);
      }
      if hp <= 0 {
        assert actions[|old(actions)|..] == [];
        return Done;
      }
      ghost var log := DieLog(view);
      DieLogDiesOnce(view);
      Strike(damage, view);
      DeathsAfter(old(actions), if hp <= 0 then log else [], HealthAction());
      r := Done;
    }

    /** Die raises OnDie exactly once. */
    lemma DieLogDiesOnce(view: Target -> TargetState)
      ensures Deaths(DieLog(view)) == 1
    {
      var cancel := if kind == HeroUnit then CancelLogAt(activatedSkillButton, manaPoints) else [];
      CancelQuiet(activatedSkillButton, manaPoints);
      DiesOnce(cancel, target, isSelected, view, kind);
    }

    /**
     * What one hit of `damage` on a unit that had `hpBefore` heal points
     * leaves behind: the armour-reduced loss, Die's events when the hit is
     * fatal (target, strategy and selection dropped), otherwise nothing else
     * changed; then the health event.
     */
    twostate predicate Hit(hpBefore: int, damage: real, view: Target -> TargetState)
      reads this
    {
      hp == hpBefore - DamageReducedByArmor(damage, Parameters().armor)
      && (hp <= 0 ==>
            target.None? && strategy == AttackStrategy && !isSelected
            && actions == old(actions + DieLog(view)) + [HealthAction()])
      && (hp > 0 ==>
            target == old(target) && strategy == old(strategy) && isSelected == old(isSelected)
            && targetIsAssigned == old(targetIsAssigned) && activatedSkillButton == old(activatedSkillButton)
            && actions == old(actions) + [HealthAction()])
    }

    /** The part of ApplyDamage past its checks: the unit is alive and the damage is not negative. */
    method Strike(damage: real, view: Target -> TargetState)
      requires Valid() && hp > 0 && damage >= 0.0
      modifies this`hp, this`target, this`actions, this`strategy, this`targetIsAssigned, this`isSelected,
               this`activatedSkillButton
      ensures Valid()
      ensures Hit(old(hp), damage, view)
    {
      hp := hp - DamageReducedByArmor(damage, Parameters().armor);
      AfterHit(view);
    }

    /** The end of TakeDamage once the heal points are lowered: a unit at 0 or below dies; the health is shown. */
    method AfterHit(view: Target -> TargetState)
      requires Valid()
      modifies this`target, this`actions, this`strategy, this`targetIsAssigned, this`isSelected,
               this`activatedSkillButton
      ensures Valid()
      ensures hp <= 0 ==>
                target.None? && strategy == AttackStrategy && !isSelected
                && actions == old(actions + DieLog(view)) + [HealthAction()]
      ensures hp > 0 ==>
                target == old(target) && strategy == old(strategy) && isSelected == old(isSelected)
                && targetIsAssigned == old(targetIsAssigned) && activatedSkillButton == old(activatedSkillButton)
                && actions == old(actions) + [HealthAction()]
    {
      if hp <= 0 {
        Die(view);
      }
      actions := actions + [HealthAction()];
    }

    /**
     * ApplyDamage of every kind. An enemy that is not alive after the hit
     * awards its experience to a hero attacker, on every such hit: the one
     * that killed it and any hit on its corpse.
     */
    method ApplyDamage(attacker: Unit?, damage: real, view: Target -> TargetState) returns (r: Outcome)
      requires Valid()
      requires attacker != null ==> attacker != this && attacker.Valid()
      modifies this`hp, this`target, this`actions, this`strategy, this`targetIsAssigned, this`isSelected,
               this`activatedSkillButton
      modifies if kind == EnemyUnit && attacker != null && attacker.kind == HeroUnit then {attacker} else {}
      ensures Valid() && (attacker != null ==> attacker.Valid())
      ensures damage < 0.0 ==> r == Fail(ArgumentOutOfRange) && unchanged(this)
      ensures damage >= 0.0 && old(hp) <= 0 ==> hp == old(hp) && actions == old(actions)
      ensures damage >= 0.0 && old(hp) > 0 ==> Hit(old(hp), damage, view)
      ensures Deaths(actions[|old(actions)|..]) == (if old(hp) > 0 && hp <= 0 then 1 else 0)
      ensures var awards := kind == EnemyUnit && damage >= 0.0 && hp <= 0 && attacker != null && attacker.kind == HeroUnit;
              (awards && expForDie == 0 ==> r == Fail(ArgumentOutOfRange) && unchanged(attacker))
              && (awards && expForDie > 0 && old(attacker.hp) <= 0 ==> r == Done && unchanged(attacker))
              && (awards && expForDie > 0 && old(attacker.hp) > 0 ==>
                    var step := ExpStep(attacker.heroData, old(attacker.level), old(attacker.exp), expForDie).value;
                    attacker.level == step.0 && attacker.exp == step.1)
              && (!awards && damage >= 0.0 ==> r == Done && (attacker != null ==> unchanged(attacker)))
    {
      r := TakeDamage(damage, view);
      if r.Fail? {
        return;
      }
      if kind == EnemyUnit && hp <= 0 && attacker != null && attacker.kind == HeroUnit {
        r := attacker.AddExp(expForDie);
      }
    }

    /** ApplyHeal: a negative heal throws, a dead unit is left alone, otherwise heal up to the maximum. */
    method ApplyHeal(heal: real) returns (r: Outcome)
      requires Valid()
      modifies this`hp, this`actions
      ensures Valid()
      ensures r.Fail? <==> heal < 0.0
      ensures r.Fail? ==> r.error == ArgumentOutOfRange
      ensures r.Fail? || old(hp) <= 0 ==> unchanged(this)
      ensures r.Done? && old(hp) > 0 ==>
                hp == Healed(old(hp), heal, Parameters().healPointsMax)
                && old(hp) <= hp <= Parameters().healPointsMax
                && actions == old(actions) + [HealthAction()]
    {
      if heal < 0.0 {
        return Fail(ArgumentOutOfRange);
      }
      if hp <= 0 {
        return Done;
      }
      hp := hp + Truncate(heal);
      hp := if Parameters().healPointsMax < hp then Parameters().healPointsMax else hp;
      actions := actions + [HealthAction()];
      r := Done;
    }

    // ------------------------------------------------------------ hero experience, mana and rebirth

    /**
     * Reborn: the current level's parameters, full mana and full health,
     * the health event, the hero faded back in, and OnRebornAfterDeath when
     * reborn after a death. Parameters for a level above 1 with no upgrades
     * throw InvalidOperation before anything changes.
     */
    method Reborn(afterDeath: bool) returns (r: Outcome)
      requires Valid() && kind == HeroUnit
      modifies this`baseParameters, this`manaPoints, this`hp, this`actions
      ensures Valid()
      ensures r.Fail? <==> HeroUnitParameters(heroData, level).Err?
      ensures r.Fail? ==> r.error == InvalidOperation && unchanged(this)
      ensures r.Done? ==>
                baseParameters == HeroUnitParameters(heroData, level).value
                && hp == baseParameters.healPointsMax && manaPoints == ManaPointsMax() && IsAlive()
                && actions == old(actions) + RebornLog(hp, afterDeath)
    {
      var parameters := HeroUnitParameters(heroData, level);
      if parameters.Err? {
        return Fail(parameters.error);
      }
      baseParameters := parameters.value;
      ManaPointsMaxMonotone(heroData, level);
      manaPoints := ClampMana(ManaPointsMax(), ManaPointsMax());
      hp := Parameters().healPointsMax;
      actions := actions + RebornLog(hp, afterDeath);
      r := Done;
    }

    /** LevelUp: one level and one skill point more, rebirth at the new level, and both button lists redrawn. */
    method LevelUp() returns (r: Outcome)
      requires Valid() && kind == HeroUnit
      modifies this`level, this`skillPoints, this`baseParameters, this`manaPoints, this`hp, this`actions
      ensures Valid()
      ensures level == old(level) + 1 && skillPoints == old(skillPoints) + 1
      ensures r.Fail? <==> HeroUnitParameters(heroData, level).Err?
      ensures r.Fail? ==> r.error == InvalidOperation && baseParameters == old(baseParameters)
                          && manaPoints == old(manaPoints) && hp == old(hp) && actions == old(actions)
      ensures r.Done? ==>
                baseParameters == HeroUnitParameters(heroData, level).value
                && hp == baseParameters.healPointsMax && manaPoints == ManaPointsMax()
                && actions == old(actions) + RebornLog(hp, false) + ButtonsLog()
    {
      GainLevel();
      r := Reborn(false);
      if r.Fail? {
        return;
      }
      UpdateAllButtons();
    }

    /** LevelUp's counters: one level and one skill point more. */
    method GainLevel()
      requires Valid() && kind == HeroUnit
      modifies this`level, this`skillPoints
      ensures Valid()
      ensures level == old(level) + 1 && skillPoints == old(skillPoints) + 1
    {
      ManaPointsMaxMonotone(heroData, level);
      level := level + 1;
      skillPoints := skillPoints + 1;
    }

    /** UpdateSkillsButtons then UpdateSkillsLevelUpsButtons: both button lists redrawn. */
    method UpdateAllButtons()
      requires Valid()
      modifies this`actions
      ensures Valid()
      ensures actions == old(actions) + ButtonsLog()
    {
      actions := actions + ButtonsLog();
    }

    /**
     * AddExp: a non-positive amount throws, a dead hero ignores it;
     * otherwise the experience is added, at most one level is gained
     * (CheckForLevelUp), and the new resource data is announced.
     */
    method AddExp(gained: int) returns (r: Outcome)
      requires Valid() && kind == HeroUnit
      modifies this`exp, this`level, this`skillPoints, this`baseParameters, this`manaPoints, this`hp, this`actions
      ensures Valid()
      ensures gained <= 0 ==> r == Fail(ArgumentOutOfRange) && unchanged(this)
      ensures gained > 0 && old(hp) <= 0 ==> r == Done && unchanged(this)
      ensures gained > 0 && old(hp) > 0 ==>
                var step := ExpStep(heroData, old(level), old(exp), gained).value;
                level == step.0 && exp == step.1 && skillPoints == old(skillPoints) + (level - old(level))
      ensures gained > 0 && old(hp) > 0 && level == old(level) ==>
                r == Done && baseParameters == old(baseParameters) && manaPoints == old(manaPoints) && hp == old(hp)
                && actions == old(actions) + [HeroDataChanged(level, exp)]
      ensures gained > 0 && old(hp) > 0 && level == old(level) + 1 ==>
                (r.Done? <==> HeroUnitParameters(heroData, level).Ok?)
                && (r.Done? ==>
                      baseParameters == HeroUnitParameters(heroData, level).value
                      && hp == baseParameters.healPointsMax && manaPoints == ManaPointsMax()
                      && actions == old(actions) + RebornLog(hp, false) + ButtonsLog() + [HeroDataChanged(level, exp)])
    {
      if gained <= 0 {
        return Fail(ArgumentOutOfRange);
      }
      if hp <= 0 {
        return Done;
      }
      r := GainExp(gained);
    }

    /** AddExp past its checks: the experience is added and may pay for one level. */
    method GainExp(gained: int) returns (r: Outcome)
      requires Valid() && kind == HeroUnit && gained > 0 && hp > 0
      modifies this`exp, this`level, this`skillPoints, this`baseParameters, this`manaPoints, this`hp, this`actions
      ensures Valid()
      ensures var needed := NeededExpForNextLevel(heroData, old(level)).value;
              if old(exp) + gained < needed then
                r == Done && level == old(level) && exp == old(exp) + gained && skillPoints == old(skillPoints)
                && baseParameters == old(baseParameters) && manaPoints == old(manaPoints) && hp == old(hp)
                && actions == old(actions) + [HeroDataChanged(level, exp)]
              else
                level == old(level) + 1 && exp == old(exp) + gained - needed && skillPoints == old(skillPoints) + 1
                && (r.Done? <==> HeroUnitParameters(heroData, level).Ok?)
                && (r.Done? ==>
                      baseParameters == HeroUnitParameters(heroData, level).value
                      && hp == baseParameters.healPointsMax && manaPoints == ManaPointsMax()
                      && actions == old(actions) + RebornLog(hp, false) + ButtonsLog() + [HeroDataChanged(level, exp)])
    {
      exp := exp + gained;
      r := CheckForLevelUp();
      if r.Fail? {
        return;
      }
      NotifyHeroData();
    }

    /** NotifyAllAboutHeroDataChanges: the level and experience as they now are. */
    method NotifyHeroData()
      requires Valid()
      modifies this`actions
      ensures Valid()
      ensures actions == old(actions) + [HeroDataChanged(level, exp)]
      ensures ButtonsLog() == old(ButtonsLog())
    {
      actions := actions + [HeroDataChanged(level, exp)];
    }

    /** CheckForLevelUp: enough experience pays for the next level and levels up once. */
    method CheckForLevelUp() returns (r: Outcome)
      requires Valid() && kind == HeroUnit
      modifies this`exp, this`level, this`skillPoints, this`baseParameters, this`manaPoints, this`hp, this`actions
      ensures Valid()
      ensures var needed := NeededExpForNextLevel(heroData, old(level)).value;
              if old(exp) < needed then r == Done && unchanged(this)
              else level == old(level) + 1 && exp == old(exp) - needed && skillPoints == old(skillPoints) + 1
                   && (r.Done? <==> HeroUnitParameters(heroData, level).Ok?)
                   && (r.Fail? ==> r.error == InvalidOperation)
                   && (r.Done? ==>
                         baseParameters == HeroUnitParameters(heroData, level).value
                         && hp == baseParameters.healPointsMax && manaPoints == ManaPointsMax()
                         && actions == old(actions) + RebornLog(hp, false) + ButtonsLog())
    {
      var needed := NeededExpForNextLevel(heroData, level);
      if exp < needed.value {
        return Done;
      }
      exp := exp - needed.value;
      r := LevelUp();
    }

    /** ApplyManaGain: a negative gain throws, a dead hero ignores it, otherwise the clamped sum. */
    method ApplyManaGain(gain: real) returns (r: Outcome)
      requires Valid() && kind == HeroUnit
      modifies this`manaPoints
      ensures Valid()
      ensures r.Fail? <==> gain < 0.0
      ensures r.Fail? ==> r.error == ArgumentOutOfRange
      ensures r.Fail? || old(hp) <= 0 ==> manaPoints == old(manaPoints)
      ensures r.Done? && old(hp) > 0 ==>
                manaPoints == ClampMana(old(manaPoints) + Truncate(gain), ManaPointsMax())
                && old(manaPoints) <= manaPoints <= ManaPointsMax()
    {
      if gain < 0.0 {
        return Fail(ArgumentOutOfRange);
      }
      if hp <= 0 {
        return Done;
      }
      ManaPointsMaxMonotone(heroData, level);
      manaPoints := ClampMana(manaPoints + Truncate(gain), ManaPointsMax());
      r := Done;
    }

    /** The events Reborn raises: the health event at full health, the fade-in, and OnRebornAfterDeath after a death. */
    static function RebornLog(health: int, afterDeath: bool): seq<Action> {
      [HealthChanged(health, 1.0), Faded(true)] + (if afterDeath then [RebornAfterDeath] else [])
    }

    /** UpdateSkillsButtons then UpdateSkillsLevelUpsButtons: both button lists as they now are. */
    function ButtonsLog(): seq<Action>
      reads this`skills, this`manaPoints, this`activatedSkillButton, this`skillPoints, skills`level
    {
      [ButtonsChanged(GetButtons()), LevelUpButtonsChanged(GetButtonsLevelUps())]
    }

    /** The hero's resource data: level, experience and the experience the next level needs. */
    function HeroResourceData(): (r: (int, int, Result<int>))
      reads this`level, this`exp
      ensures r.0 == level && r.1 == exp
      ensures r.2.Err? <==> level < 1
      ensures 1 <= level <= |heroData.upgrades| ==> r.2 == Ok(heroData.upgrades[level - 1].upgrade.upgradeCost)
      ensures level > |heroData.upgrades| ==> r.2 == Ok(LongMax)
    {
      (level, exp, NeededExpForNextLevel(heroData, level))
    }

    /** SkillCanBeUsed: the skill is not cooling down and the hero has the mana for it. */
    predicate SkillCanBeUsed(skill: Skill)
      reads this`manaPoints, skill`level, skill.timer`countdown
      ensures SkillCanBeUsed(skill) <==> skill.timer.countdown <= 0.0 && ManaCostAt(skill.data, skill.level) <= manaPoints
    {
      !skill.IsCooldownStarted() && manaPoints >= skill.ManaCost()
    }
  
    // ------------------------------------------------------------ hero skills

    /** UpdateSkillsButtons: the skill buttons as they now are. */
    method UpdateSkillsButtons()
      requires Valid()
      modifies this`actions
      ensures Valid()
      ensures actions == old(actions) + [ButtonsChanged(GetButtons())]
    {
      actions := actions + [ButtonsChanged(GetButtons())];
    }

    /**
     * UseSkillOnTarget: a null skill or target throws; a skill that is
     * cooling down or too dear does nothing; otherwise the skill is cast,
     * its mana paid, skill selecting cancelled and the buttons redrawn.
     */
    method UseSkillOnTarget(skill: Skill?, t: Option<Target>) returns (r: Outcome)
      requires Valid() && kind == HeroUnit
      requires skill != null ==> WellTyped(skill.data) && DataNonNegative(skill.data)
      modifies this`manaPoints, this`activatedSkillButton, this`actions
      modifies if skill != null then {skill, skill.timer} else {}
      ensures Valid()
      ensures skill == null || t.None? ==> r == Fail(ArgumentNull) && unchanged(this)
      ensures skill != null && t.Some? && !old(SkillCanBeUsed(skill)) ==>
                r == Done && unchanged(this) && unchanged(skill, skill.timer)
      ensures skill != null && t.Some? && old(SkillCanBeUsed(skill)) ==>
                var cast := old(CastOf(skill, t));
                (r.Fail? <==> cast.Err?)
                && (r.Fail? ==> r.error == cast.error && unchanged(this) && unchanged(skill, skill.timer))
                && (r.Done? ==>
                      manaPoints == old(manaPoints) - old(skill.ManaCost())
                      && activatedSkillButton == NoSkillButtonsActivated
                      && skill.countdown == CooldownAt(skill.data, skill.level)
                      && (skill.IsCooldownStarted() <==> CooldownAt(skill.data, skill.level) > 0.0)
                      && ManaCostsOf(skills) == old(ManaCostsOf(skills))
                      && actions == old(actions)
                                    + SkillUseLog(cast.value, old(ManaCostsOf(skills)), old(activatedSkillButton), manaPoints))
    {
      if skill == null || t.None? {
        return Fail(ArgumentNull);
      }
      if !SkillCanBeUsed(skill) {
        return Done;
      }
      r := CastSkill(skill, t);
    }

    /** UseSkillOnTarget past its checks: the skill's UseSkill, then the payment and the redrawn buttons. */
    method CastSkill(skill: Skill, t: Option<Target>) returns (r: Outcome)
      requires Valid() && kind == HeroUnit && t.Some? && SkillCanBeUsed(skill)
      requires WellTyped(skill.data) && DataNonNegative(skill.data)
      modifies this`manaPoints, this`activatedSkillButton, this`actions, skill, skill.timer
      ensures Valid()
      ensures var cast := old(CastOf(skill, t));
              (r.Fail? <==> cast.Err?)
              && (r.Fail? ==> r.error == cast.error && unchanged(this) && unchanged(skill, skill.timer))
              && (r.Done? ==>
                    manaPoints == old(manaPoints) - old(skill.ManaCost())
                    && activatedSkillButton == NoSkillButtonsActivated
                    && skill.countdown == CooldownAt(skill.data, skill.level)
                    && (skill.IsCooldownStarted() <==> CooldownAt(skill.data, skill.level) > 0.0)
                    && ManaCostsOf(skills) == old(ManaCostsOf(skills))
                    && actions == old(actions)
                                  + SkillUseLog(cast.value, old(ManaCostsOf(skills)), old(activatedSkillButton), manaPoints))
    {
      var cost := skill.ManaCost();
      LevelValuesNonNegative(skill.data, skill.level);
      var used := skill.UseSkill(t, true, true, true);
      if used.Err? {
        return Fail(used.error);
      }
      PayForCast(used.value, cost);
      r := Done;
    }

    /** After a cast: the announcement, the mana paid (clamped), selecting cancelled, the buttons redrawn. */
    method PayForCast(use: SkillUse, cost: int)
      requires Valid() && kind == HeroUnit && 0 <= cost <= manaPoints
      modifies this`manaPoints, this`activatedSkillButton, this`actions
      ensures Valid()
      ensures manaPoints == old(manaPoints) - cost && activatedSkillButton == NoSkillButtonsActivated
      ensures actions == old(actions) + SkillUseLog(use, ManaCostsOf(skills), old(activatedSkillButton), manaPoints)
    {
      ghost var start := actions;
      actions := actions + [Cast(use)];
      manaPoints := ClampMana(manaPoints - cost, ManaPointsMax());
      CancelAndRedraw();
      Regroup(start, [Cast(use)], CancelLogAt(old(activatedSkillButton), manaPoints),
              [ButtonsChanged(ButtonsAsWritten(ManaCostsOf(skills), manaPoints, NoSkillButtonsActivated))]);
    }

    /** The end of a cast: selecting cancelled, then the buttons redrawn with none activated. */
    method CancelAndRedraw()
      requires Valid() && kind == HeroUnit
      modifies this`activatedSkillButton, this`actions
      ensures Valid() && activatedSkillButton == NoSkillButtonsActivated
      ensures actions == old(actions) + CancelLogAt(old(activatedSkillButton), manaPoints)
                         + [ButtonsChanged(ButtonsAsWritten(ManaCostsOf(skills), manaPoints, NoSkillButtonsActivated))]
    {
      CancelSelecting();
      UpdateSkillsButtons();
    }

    /**
     * SetTargetForUsingSkill: a null skill or target throws; skill selecting
     * is cancelled; a usable skill makes the target the assigned one and
     * installs the use-skill strategy.
     */
    method SetTargetForUsingSkill(skill: Skill?, t: Option<Target>, view: Target -> TargetState) returns (r: Outcome)
      requires Valid() && kind == HeroUnit
      requires skill != null ==> WellTyped(skill.data) && DataNonNegative(skill.data)
      modifies this`activatedSkillButton, this`actions, this`target, this`targetIsAssigned, this`strategy
      ensures Valid()
      ensures skill == null || t.None? ==> r == Fail(ArgumentNull) && unchanged(this)
      ensures skill != null && t.Some? ==> r == Done && activatedSkillButton == NoSkillButtonsActivated
      ensures skill != null && t.Some? && !SkillCanBeUsed(skill) ==>
                target == old(target) && strategy == old(strategy) && targetIsAssigned == old(targetIsAssigned)
                && actions == old(actions) + CancelLogAt(old(activatedSkillButton), manaPoints)
      ensures skill != null && t.Some? && SkillCanBeUsed(skill) ==>
                target == t && targetIsAssigned && strategy == UseSkillStrategy(skill)
                && actions == old(actions) + CancelLogAt(old(activatedSkillButton), manaPoints)
                              + NewTargetLog(old(target), t, isSelected, view)
    {
      if skill == null || t.None? {
        return Fail(ArgumentNull);
      }
      CancelSelecting();
      r := Done;
      if !SkillCanBeUsed(skill) {
        return;
      }
      UseSkillOn(skill, t, view);
    }

    /** The usable-skill half of SetTargetForUsingSkill: the target is assigned and the use-skill strategy installed. */
    method UseSkillOn(skill: Skill, t: Option<Target>, view: Target -> TargetState)
      requires Valid() && kind == HeroUnit && WellTyped(skill.data) && DataNonNegative(skill.data)
      modifies this`actions, this`target, this`targetIsAssigned, this`strategy
      ensures Valid()
      ensures target == t && targetIsAssigned && strategy == UseSkillStrategy(skill)
      ensures actions == old(actions) + NewTargetLog(old(target), t, isSelected, view)
    {
      SetTargetManually(t, view);
      strategy := UseSkillStrategy(skill);
    }

    /**
     * OnSkillClickHandler: an index outside the skills throws; a usable
     * skill asks for a target to be selected and its button starts
     * flashing. Every skill selects its target, so the self-targeting
     * branch is never taken.
     */
    method OnSkillClick(index: int) returns (r: Outcome)
      requires Valid() && kind == HeroUnit
      modifies this`activatedSkillButton, this`actions
      ensures Valid()
      ensures !(0 <= index < |skills|) ==> r == Fail(ArgumentOutOfRange) && unchanged(this)
      ensures 0 <= index < |skills| && !SkillCanBeUsed(skills[index]) ==> r == Done && unchanged(this)
      ensures 0 <= index < |skills| && SkillCanBeUsed(skills[index]) ==>
                r == Done && activatedSkillButton == index
                && actions == old(actions) + [SelectingSkillTarget(index), ButtonChanged(ButtonAt(index, true))]
    {
      if index < 0 || index >= |skills| {
        return Fail(ArgumentOutOfRange);
      }
      r := Done;
      if !SkillCanBeUsed(skills[index]) {
        return;
      }
      activatedSkillButton := index;
      actions := actions + [SelectingSkillTarget(index), ButtonChanged(ButtonAt(index, true))];
    }

    /**
     * OnSkillLevelUpClickHandler: `index` counts among the skills that can
     * level up; outside them it throws. The chosen skill levels up, a skill
     * point is spent and the level-up buttons are redrawn.
     */
    method OnSkillLevelUpClick(index: int) returns (r: Outcome)
      requires Valid() && kind == HeroUnit
      modifies this`skillPoints, this`actions, SkillObjects()
      ensures Valid()
      ensures !(0 <= index < |old(CanLevelUpOf(skills))|) ==>
                r == Fail(ArgumentOutOfRange) && unchanged(this) && unchanged(SkillObjects())
      ensures 0 <= index < |old(CanLevelUpOf(skills))| ==>
                var chosen := old(CanLevelUpOf(skills))[index];
                r == Done && chosen in skills && chosen.level == old(chosen.level) + 1 && !chosen.IsCooldownStarted()
                && (forall s :: s in skills && s != chosen ==> s.level == old(s.level))
                && skillPoints == old(skillPoints) - 1
                && actions == old(actions) + [LevelUpButtonsChanged(GetButtonsLevelUps())]
    {
      var ups := CanLevelUpOf(skills);
      if index < 0 || index >= |ups| {
        return Fail(ArgumentOutOfRange);
      }
      var chosen := ups[index];
      assert chosen in skills;
      assert chosen.timer in SkillObjects();
      chosen.LevelUp();
      SpendSkillPoint();
      r := Done;
    }

    /** The skill point a skill level-up costs, and UpdateSkillsLevelUpsButtons. */
    method SpendSkillPoint()
      requires Valid()
      modifies this`skillPoints, this`actions
      ensures Valid()
      ensures skillPoints == old(skillPoints) - 1
      ensures actions == old(actions) + [LevelUpButtonsChanged(GetButtonsLevelUps())]
    {
      skillPoints := skillPoints - 1;
      actions := actions + [LevelUpButtonsChanged(GetButtonsLevelUps())];
    }

    /**
     * OnSkillChangedHandler: the changed skill's button is redrawn,
     * flashing when it is the activated one; a skill the hero does not
     * have throws ArgumentOutOfRange.
     */
    method OnSkillChanged(skill: Skill) returns (r: Outcome)
      requires Valid() && kind == HeroUnit
      modifies this`actions
      ensures skill !in skills ==> r == Fail(ArgumentOutOfRange) && actions == old(actions)
      ensures skill in skills ==>
                var i := IndexOf(skills, skill);
                r == Done && actions == old(actions) + [ButtonChanged(Buttons(ManaCostsOf(skills), manaPoints, activatedSkillButton)[i])]
    {
      var i := IndexOf(skills, skill);
      if i == -1 {
        return Fail(ArgumentOutOfRange);
      }
      SingleButtonMatchesList(i);
      actions := actions + [ButtonChanged(ButtonAt(i, i == activatedSkillButton))];
      r := Done;
    }

    /** The button one skill's change redraws is the one the corrected list of buttons has at its place. */
    lemma SingleButtonMatchesList(i: int)
      requires 0 <= i < |skills|
      ensures ButtonAt(i, i == activatedSkillButton) == Buttons(ManaCostsOf(skills), manaPoints, activatedSkillButton)[i]
    {
    }
  
    // ------------------------------------------------------------ target handling

    /** The skill the use-skill strategy casts and its timer; nothing for the attack strategy. */
    function StrategyObjects(): set<object>
      reads this`strategy
    {
      if strategy.UseSkillStrategy? then {strategy.skill, strategy.skill.timer} else {}
    }

    /** The installed strategy's IsCloseForTarget for `t` at flat distance `distance`. */
    predicate IsCloseFor(t: Target, distance: real)
      reads this`strategy, this`baseParameters, this`provider, StrategyObjects()
    {
      match strategy
      case AttackStrategy => AttackIsClose(distance, t, Parameters().attackRange)
      case UseSkillStrategy(skill) => SkillIsClose(distance, skill.SkillDistanceUsing())
    }

    /** The installed strategy's IsTargetChecked for `t`, the unit being the attacker or the caster. */
    predicate IsCheckedFor(t: Target, state: TargetState)
      reads this`strategy, this`manaPoints, StrategyObjects()
    {
      match strategy
      case AttackStrategy => AttackIsChecked(t, state, TeamOf(kind))
      case UseSkillStrategy(skill) =>
        SkillIsChecked(skill.IsTargetCorrect(Some(t), Some(TeamOf(kind)), state), SkillCanBeUsed(skill))
    }

    /** What UseTarget decides this tick; `distanceTo` gives the flat distance from the unit to a target. */
    function CurrentDecision(view: Target -> TargetState, distanceTo: Target -> real): Decision
      reads this`target, this`strategy, this`baseParameters, this`provider, this`manaPoints, StrategyObjects()
    {
      if target.None? then NoAction
      else
        var t := target.value;
        Decide(view(t).missing, IsCloseFor(t, distanceTo(t)), IsCheckedFor(t, view(t)))
    }

    /**
     * DoWork, one frame of the unit's default behaviour: a dead unit does
     * nothing; a living one recharges its attack over `deltaTime`, searches
     * for a target at time `now` when a search is due, and handles its target.
     */
    method DoWork(now: real, deltaTime: real, view: Target -> TargetState, distanceTo: Target -> real,
                  nearest: Option<UnitId>, nearestDistance: real)
      requires Valid()
      modifies this`attackRecharge, this`lastTargetFindTime, this`target, this`actions, this`strategy,
               this`targetIsAssigned, this`manaPoints, this`activatedSkillButton, this`turnedTo,
               this`steppedTo, StrategyObjects()
      ensures Valid()
      ensures !old(IsAlive()) ==> unchanged(this)
      ensures hp == old(hp) && old(actions) <= actions
      ensures lastTargetFindTime in {old(lastTargetFindTime), now}
    {
      if !IsAlive() {
        return;
      }
      RechargeAttack(deltaTime);
      FindTarget(now, view, nearest, nearestDistance);
      UseTarget(view, distanceTo);
    }

    /** UseTarget: hand the current target to the installed strategy's HandleTarget. */
    method UseTarget(view: Target -> TargetState, distanceTo: Target -> real)
      requires Valid()
      modifies this`target, this`actions, this`strategy, this`targetIsAssigned, this`attackRecharge,
               this`manaPoints, this`activatedSkillButton, this`turnedTo, this`steppedTo, StrategyObjects()
      ensures Valid()
      ensures old(actions) <= actions
      ensures old(target).None? || view(old(target).value).missing ==> unchanged(this)
      ensures old(target).Some? && !view(old(target).value).missing ==>
                turnedTo == Some(view(old(target).value).position)
    {
      HandleTarget(view, distanceTo);
    }

    /**
     * UseTarget, that is HandleTarget of the installed strategy: a null or
     * missing target is ignored; otherwise the unit turns toward it, steps
     * toward it when it is not close, drops it when it fails the check, and
     * otherwise attacks it or casts the strategy's skill on it and drops it.
     */
    method HandleTarget(view: Target -> TargetState, distanceTo: Target -> real)
      requires Valid()
      modifies this`target, this`actions, this`strategy, this`targetIsAssigned, this`attackRecharge,
               this`manaPoints, this`activatedSkillButton, this`turnedTo, this`steppedTo, StrategyObjects()
      ensures Valid()
      ensures old(actions) <= actions
      ensures old(CurrentDecision(view, distanceTo)) == NoAction ==> unchanged(this)
      ensures old(CurrentDecision(view, distanceTo)) != NoAction ==>
                turnedTo == Some(view(old(target).value).position)
      ensures old(CurrentDecision(view, distanceTo)) == MoveToTarget ==>
                steppedTo == Some(view(old(target).value).position)
                && actions == old(actions) && target == old(target) && strategy == old(strategy)
                && attackRecharge == old(attackRecharge) && manaPoints == old(manaPoints)
      ensures old(CurrentDecision(view, distanceTo)) == Decision.ResetTarget ==>
                target.None? && strategy == AttackStrategy && attackRecharge == old(attackRecharge)
                && manaPoints == old(manaPoints)
                && actions == old(actions) + ResetLog(old(target), isSelected, view)
      ensures old(CurrentDecision(view, distanceTo)) == SpecificHandle && old(strategy).AttackStrategy? ==>
                var t := old(target).value;
                target == old(target) && strategy == AttackStrategy && manaPoints == old(manaPoints)
                && IsAttackable(t) && view(t).alive && view(t).attackableBy == TeamOf(kind)
                && (old(attackRecharge) >= AttackRechargeMax ==>
                      attackRecharge == AttackRechargeMin && actions == old(actions) + [Fire(t)])
                && (old(attackRecharge) < AttackRechargeMax ==>
                      attackRecharge == old(attackRecharge) && actions == old(actions))
      ensures old(CurrentDecision(view, distanceTo)) == SpecificHandle && old(strategy).UseSkillStrategy? ==>
                var skill := old(strategy).skill;
                old(CastOf(skill, target)).Ok?
                && target.None? && strategy == AttackStrategy && attackRecharge == old(attackRecharge)
                && manaPoints == old(manaPoints) - old(skill.ManaCost())
                && actions == old(actions)
                              + SkillUseLog(old(CastOf(skill, target)).value, old(ManaCostsOf(skills)), old(activatedSkillButton), manaPoints)
                              + ResetLog(old(target), isSelected, view)
    {
      if target.None? || view(target.value).missing {
        return;
      }
      var t := target.value;
      var p := view(t).position;
      ApproachTarget(t, view, distanceTo);
      turnedTo := Some(p);
    }

    /**
     * HandleTarget after the unit looked at a present target: a target that
     * is not close is stepped toward, one that fails the check is dropped,
     * and any other gets the strategy's SpecificHandle.
     */
    method ApproachTarget(t: Target, view: Target -> TargetState, distanceTo: Target -> real)
      requires Valid() && target == Some(t) && !view(t).missing
      modifies this`target, this`actions, this`strategy, this`targetIsAssigned, this`attackRecharge,
               this`manaPoints, this`activatedSkillButton, this`steppedTo, StrategyObjects()
      ensures Valid()
      ensures old(actions) <= actions
      ensures old(CurrentDecision(view, distanceTo)) == MoveToTarget ==>
                steppedTo == Some(view(t).position)
                && actions == old(actions) && target == old(target) && strategy == old(strategy)
                && attackRecharge == old(attackRecharge) && manaPoints == old(manaPoints)
      ensures old(CurrentDecision(view, distanceTo)) == Decision.ResetTarget ==>
                target.None? && strategy == AttackStrategy && attackRecharge == old(attackRecharge)
                && manaPoints == old(manaPoints)
                && actions == old(actions) + ResetLog(old(target), isSelected, view)
      ensures old(CurrentDecision(view, distanceTo)) == SpecificHandle && old(strategy).AttackStrategy? ==>
                target == old(target) && strategy == AttackStrategy && manaPoints == old(manaPoints)
                && IsAttackable(t) && view(t).alive && view(t).attackableBy == TeamOf(kind)
                && (old(attackRecharge) >= AttackRechargeMax ==>
                      attackRecharge == AttackRechargeMin && actions == old(actions) + [Fire(t)])
                && (old(attackRecharge) < AttackRechargeMax ==>
                      attackRecharge == old(attackRecharge) && actions == old(actions))
      ensures old(CurrentDecision(view, distanceTo)) == SpecificHandle && old(strategy).UseSkillStrategy? ==>
                var skill := old(strategy).skill;
                old(CastOf(skill, target)).Ok?
                && target.None? && strategy == AttackStrategy && attackRecharge == old(attackRecharge)
                && manaPoints == old(manaPoints) - old(skill.ManaCost())
                && actions == old(actions)
                              + SkillUseLog(old(CastOf(skill, target)).value, old(ManaCostsOf(skills)), old(activatedSkillButton), manaPoints)
                              + ResetLog(old(target), isSelected, view)
    {
      if IsCloseFor(t, distanceTo(t)) {
        if IsCheckedFor(t, view(t)) {
          HandleCheckedTarget(t, view);
        } else {
          ResetTarget(view);
        }
      } else {
        steppedTo := Some(view(t).position);
      }
    }

    /** SpecificHandle of the installed strategy, on a target that is close and passed its check. */
    method HandleCheckedTarget(t: Target, view: Target -> TargetState)
      requires Valid() && target == Some(t) && IsCheckedFor(t, view(t))
      modifies this`target, this`actions, this`strategy, this`targetIsAssigned, this`attackRecharge,
               this`manaPoints, this`activatedSkillButton, StrategyObjects()
      ensures Valid()
      ensures old(strategy).AttackStrategy? ==>
                target == old(target) && strategy == AttackStrategy && manaPoints == old(manaPoints)
                && IsAttackable(t) && view(t).alive && view(t).attackableBy == TeamOf(kind)
                && (old(attackRecharge) >= AttackRechargeMax ==>
                      attackRecharge == AttackRechargeMin && actions == old(actions) + [Fire(t)])
                && (old(attackRecharge) < AttackRechargeMax ==>
                      attackRecharge == old(attackRecharge) && actions == old(actions))
      ensures old(strategy).UseSkillStrategy? ==>
                var skill := old(strategy).skill;
                old(CastOf(skill, target)).Ok?
                && target.None? && strategy == AttackStrategy && attackRecharge == old(attackRecharge)
                && manaPoints == old(manaPoints) - old(skill.ManaCost())
                && actions == old(actions)
                              + SkillUseLog(old(CastOf(skill, target)).value, old(ManaCostsOf(skills)), old(activatedSkillButton), manaPoints)
                              + ResetLog(old(target), isSelected, view)
    {
      if strategy.AttackStrategy? {
        Attack(t);
      } else {
        SkillHandle(strategy.skill, t, view);
      }
    }

    /**
     * TargetHandleStrategyUseSkill.SpecificHandle on a checked target:
     * UseSkillOnTarget, whose null and usability checks the target check has
     * already passed, so its cast succeeds; then the target is dropped.
     */
    method SkillHandle(skill: Skill, t: Target, view: Target -> TargetState)
      requires Valid() && strategy == UseSkillStrategy(skill) && target == Some(t)
      requires skill.IsTargetCorrect(Some(t), Some(TeamOf(kind)), view(t)) && SkillCanBeUsed(skill)
      modifies this`target, this`actions, this`strategy, this`targetIsAssigned, this`manaPoints,
               this`activatedSkillButton, skill, skill.timer
      ensures Valid()
      ensures old(CastOf(skill, Some(t))).Ok?
      ensures target.None? && strategy == AttackStrategy
      ensures manaPoints == old(manaPoints) - old(skill.ManaCost())
      ensures actions == old(actions)
                         + SkillUseLog(old(CastOf(skill, Some(t))).value, old(ManaCostsOf(skills)), old(activatedSkillButton), manaPoints)
                         + ResetLog(Some(t), isSelected, view)
    {
      var r := CastSkill(skill, Some(t));
      ResetTarget(view);
    }
  }
}
