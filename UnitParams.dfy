/**
 * UnitParameters: the clamped record of a unit's combat statistics, its
 * operator +, MultiplySpeed, the Aggregate-based Sum over a sequence, and
 * the speed-modifying parameters decorator.
 */
module UnitParams {
  import opened Wrappers

  const AttackMin: real := 0.0
  const ArmorMin: real := 0.0
  const ArmorMax: real := 1.0
  const HealthMin: int := 1
  const SpeedMin: real := 0.0
  const AttackSpeedMin: real := 0.0
  const AttackRangeMin: real := 0.0

  datatype UnitParameters = UnitParameters(
    attack: real, armor: real, healPointsMax: int, speed: real, attackSpeed: real, attackRange: real)

  /** The bounds ValidateValues establishes. */
  predicate Valid(p: UnitParameters) {
    p.attack >= AttackMin && ArmorMin <= p.armor <= ArmorMax && p.healPointsMax >= HealthMin
    && p.speed >= SpeedMin && p.attackSpeed >= AttackSpeedMin && p.attackRange >= AttackRangeMin
  }

  function MaxReal(a: real, b: real): real {
    if a < b then b else a
  }

  /**
   * ValidateValues: raise every field to its minimum and cap the armour at
   * its maximum. Fields already in range are kept.
   */
  function ValidateValues(p: UnitParameters): (r: UnitParameters)
    ensures Valid(r)
    ensures Valid(p) ==> r == p
    ensures p.attack >= AttackMin ==> r.attack == p.attack
    ensures ArmorMin <= p.armor <= ArmorMax ==> r.armor == p.armor
    ensures p.healPointsMax >= HealthMin ==> r.healPointsMax == p.healPointsMax
    ensures p.speed >= SpeedMin ==> r.speed == p.speed
    ensures p.attackSpeed >= AttackSpeedMin ==> r.attackSpeed == p.attackSpeed
    ensures p.attackRange >= AttackRangeMin ==> r.attackRange == p.attackRange
    ensures p.armor > ArmorMax ==> r.armor == ArmorMax
    ensures p.healPointsMax < HealthMin ==> r.healPointsMax == HealthMin
  {
    UnitParameters(
      MaxReal(AttackMin, p.attack),
      if p.armor < ArmorMin then ArmorMin else if p.armor > ArmorMax then ArmorMax else p.armor,
      if p.healPointsMax < HealthMin then HealthMin else p.healPointsMax,
      MaxReal(SpeedMin, p.speed),
      MaxReal(AttackSpeedMin, p.attackSpeed),
      MaxReal(AttackRangeMin, p.attackRange))
  }

  /** Validating twice is validating once. */
  lemma ValidateIdempotent(p: UnitParameters)
    ensures ValidateValues(ValidateValues(p)) == ValidateValues(p)
  {
  }

  /** The six-argument constructor: store the values, then validate them. */
  function NewParameters(attack: real, armor: real, healPointsMax: int, speed: real, attackSpeed: real, attackRange: real)
    : (r: UnitParameters)
    ensures Valid(r)
    ensures Valid(UnitParameters(attack, armor, healPointsMax, speed, attackSpeed, attackRange)) ==>
              r == UnitParameters(attack, armor, healPointsMax, speed, attackSpeed, attackRange)
  {
    ValidateValues(UnitParameters(attack, armor, healPointsMax, speed, attackSpeed, attackRange))
  }

  /** operator +: add fieldwise, then validate. */
  function Plus(p1: UnitParameters, p2: UnitParameters): (r: UnitParameters)
    ensures Valid(r)
  {
    NewParameters(
      p1.attack + p2.attack, p1.armor + p2.armor, p1.healPointsMax + p2.healPointsMax,
      p1.speed + p2.speed, p1.attackSpeed + p2.attackSpeed, p1.attackRange + p2.attackRange)
  }

  /** The sum of two valid records adds every field, except that the armour is capped at 1. */
  lemma PlusOfValid(p1: UnitParameters, p2: UnitParameters)
    requires Valid(p1) && Valid(p2)
    ensures Plus(p1, p2).attack == p1.attack + p2.attack
    ensures Plus(p1, p2).armor == (if p1.armor + p2.armor > ArmorMax then ArmorMax else p1.armor + p2.armor)
    ensures Plus(p1, p2).healPointsMax == p1.healPointsMax + p2.healPointsMax
    ensures Plus(p1, p2).speed == p1.speed + p2.speed
    ensures Plus(p1, p2).attackSpeed == p1.attackSpeed + p2.attackSpeed
    ensures Plus(p1, p2).attackRange == p1.attackRange + p2.attackRange
  {
  }

  lemma PlusCommutes(p1: UnitParameters, p2: UnitParameters)
    ensures Plus(p1, p2) == Plus(p2, p1)
  {
  }

  /** MultiplySpeed: scale speed and attack speed, keep the rest, then validate. */
  function MultiplySpeed(p: UnitParameters, multiplier: real): (r: UnitParameters)
    ensures Valid(r)
  {
    NewParameters(p.attack, p.armor, p.healPointsMax, p.speed * multiplier, p.attackSpeed * multiplier, p.attackRange)
  }

  lemma NonPositiveProduct(a: real, m: real)
    requires a >= 0.0 && m < 0.0
    ensures a * m <= 0.0
  {
  }

  /**
   * On a valid record MultiplySpeed changes only the two speeds: scaled by a
   * non-negative multiplier, clamped to 0 by a negative one.
   */
  lemma MultiplySpeedOfValid(p: UnitParameters, multiplier: real)
    requires Valid(p)
    ensures multiplier >= 0.0 ==>
              MultiplySpeed(p, multiplier) == p.(speed := p.speed * multiplier, attackSpeed := p.attackSpeed * multiplier)
    ensures multiplier < 0.0 ==> MultiplySpeed(p, multiplier) == p.(speed := 0.0, attackSpeed := 0.0)
  {
    if multiplier < 0.0 {
      NonPositiveProduct(p.speed, multiplier);
      NonPositiveProduct(p.attackSpeed, multiplier);
    }
  }

  /**
   * ExUnitParameters.Sum, i.e. Aggregate((x, y) => x + y): an empty
   * sequence throws InvalidOperation, one element is returned as it is, and
   * longer sequences are added from the left.
   */
  function Sum(s: seq<UnitParameters>): (r: Result<UnitParameters>)
    ensures r.Err? <==> s == []
    ensures r.Err? ==> r.error == InvalidOperation
    ensures |s| == 1 ==> r == Ok(s[0])
    ensures |s| >= 2 ==> Valid(r.value)
  {
    if s == [] then Err(InvalidOperation)
    else if |s| == 1 then Ok(s[0])
    else Ok(Plus(Sum(s[..|s| - 1]).value, s[|s| - 1]))
  }

  /** Appending one more record adds it to the running sum. */
  lemma SumSnoc(s: seq<UnitParameters>, p: UnitParameters)
    requires s != []
    ensures Sum(s + [p]) == Ok(Plus(Sum(s).value, p))
  {
    assert (s + [p])[..|s + [p]| - 1] == s;
  }

  function HealPointsTotal(s: seq<UnitParameters>): int {
    if s == [] then 0 else HealPointsTotal(s[..|s| - 1]) + s[|s| - 1].healPointsMax
  }

  /** The sum of valid records is valid and its maximum health is the total of theirs. */
  lemma {:induction false} SumOfValid(s: seq<UnitParameters>)
    requires s != [] && forall k :: 0 <= k < |s| ==> Valid(s[k])
    ensures Valid(Sum(s).value) && Sum(s).value.healPointsMax == HealPointsTotal(s)
  {
    if |s| == 1 {
      assert s[..0] == [];
    } else {
      SumOfValid(s[..|s| - 1]);
      PlusOfValid(Sum(s[..|s| - 1]).value, s[|s| - 1]);
    }
  }

  /**
   * IUnitParametersProvider as a chain: the unit's base provider (its data
   * or the shop that made it), possibly wrapped by speed decorators. Each
   * decorator has an identity, standing for the object reference.
   */
  datatype Provider = BaseProvider | ModifiedSpeed(id: nat, inner: Provider, multiplier: real)

  /**
   * The Parameters a provider reports when its base currently reports
   * `base`. It is recomputed on every read, so it follows the base.
   */
  function ParametersOf(p: Provider, base: UnitParameters): (r: UnitParameters)
    ensures p.ModifiedSpeed? ==> Valid(r)
  {
    match p
    case BaseProvider => base
    case ModifiedSpeed(_, inner, m) => MultiplySpeed(ParametersOf(inner, base), m)
  }

  /**
   * The UnitParametersModifiedSpeed constructor: the base class rejects a
   * null wrapped provider and then a null unit with NullReference; a
   * negative multiplier throws ArgumentOutOfRange.
   */
  function NewModifiedSpeed(id: nat, unitPresent: bool, inner: Option<Provider>, multiplier: real): (r: Result<Provider>)
    ensures r.Ok? <==> unitPresent && inner.Some? && multiplier >= 0.0
    ensures !unitPresent || inner.None? ==> r == Err(NullReference)
    ensures unitPresent && inner.Some? && multiplier < 0.0 ==> r == Err(ArgumentOutOfRange)
    ensures r.Ok? ==> r.value == ModifiedSpeed(id, inner.value, multiplier)
  {
    if inner.None? || !unitPresent then Err(NullReference)
    else if multiplier < 0.0 then Err(ArgumentOutOfRange)
    else Ok(ModifiedSpeed(id, inner.value, multiplier))
  }

  /**
   * A decorator over a valid base reports the base with both speeds scaled
   * and everything else unchanged.
   */
  lemma ModifiedSpeedReportsScaledBase(id: nat, multiplier: real, base: UnitParameters)
    requires Valid(base) && multiplier >= 0.0
    ensures ParametersOf(ModifiedSpeed(id, BaseProvider, multiplier), base)
            == base.(speed := base.speed * multiplier, attackSpeed := base.attackSpeed * multiplier)
  {
    MultiplySpeedOfValid(base, multiplier);
  }

  /** A decorator's parameters differ from its base's only in the two speeds. */
  lemma {:induction false} DecoratorsKeepOtherFields(p: Provider, base: UnitParameters)
    requires Valid(base)
    ensures var r := ParametersOf(p, base);
            r.attack == base.attack && r.armor == base.armor && r.healPointsMax == base.healPointsMax
            && r.attackRange == base.attackRange && Valid(r)
  {
    match p
    case BaseProvider =>
    case ModifiedSpeed(_, inner, m) =>
      DecoratorsKeepOtherFields(inner, base);
      MultiplySpeedOfValid(ParametersOf(inner, base), m);
  }
}
