/**
 * The per-level tables: a shop's settings (ShopSettings with its ShopData
 * entries) and a hero's data (HeroData with its HeroUpgradeData entries).
 * Every getter is a function of the level: a prefix of the upgrade list is
 * summed onto the base values.
 */
module LevelTables {
  import opened Wrappers
  import opened UnitParams

  /** long.MaxValue, the price of an upgrade that does not exist. */
  const LongMax: int := 0x7fff_ffff_ffff_ffff

  /** ShopSettings.CREATION_SPEED_MIN and DEFAULT_CREATION_SPEED. */
  const CreationSpeedMin: real := 0.001
  const DefaultCreationSpeed: real := 0.05

  /** The first n entries (Enumerable.Take): all of them when there are fewer. */
  function Take<X>(s: seq<X>, n: int): (r: seq<X>)
    ensures |r| == (if n < 0 then 0 else if n < |s| then n else |s|)
    ensures r <= s
  {
    if n < 0 then [] else if n < |s| then s[..n] else s
  }

  // ---------------------------------------------------------------- upgrade entries

  /** UnitUpgradeData: a price and the parameters the upgrade adds. */
  datatype UnitUpgradeData = UnitUpgradeData(upgradeCost: int, parameters: UnitParameters)

  /** UnitUpgradeData.ValidateValues: the price is at least 0 and the parameters are validated. */
  function ValidateUpgrade(u: UnitUpgradeData): (r: UnitUpgradeData)
    ensures r.upgradeCost >= 0 && Valid(r.parameters)
    ensures u.upgradeCost >= 0 && Valid(u.parameters) ==> r == u
  {
    UnitUpgradeData(if u.upgradeCost < 0 then 0 else u.upgradeCost, ValidateValues(u.parameters))
  }

  /** ShopData: an upgrade entry of a shop, adding to its creation speed as well. */
  datatype ShopData = ShopData(upgrade: UnitUpgradeData, creatingSpeedUp: real)

  predicate ShopDataValid(d: ShopData) {
    d.upgrade.upgradeCost >= 0 && Valid(d.upgrade.parameters) && d.creatingSpeedUp >= 0.0
  }

  /** ShopData.ValidateValues. */
  function ValidateShopData(d: ShopData): (r: ShopData)
    ensures ShopDataValid(r)
    ensures ShopDataValid(d) ==> r == d
  {
    ShopData(ValidateUpgrade(d.upgrade), if d.creatingSpeedUp < 0.0 then 0.0 else d.creatingSpeedUp)
  }

  /** HeroUpgradeData: an upgrade entry of a hero, adding to its mana maximum as well. */
  datatype HeroUpgradeData = HeroUpgradeData(upgrade: UnitUpgradeData, manaPointsMaxUp: int)

  predicate HeroUpgradeValid(d: HeroUpgradeData) {
    d.upgrade.upgradeCost >= 0 && Valid(d.upgrade.parameters) && d.manaPointsMaxUp >= 0
  }

  /** HeroUpgradeData.ValidateValues. */
  function ValidateHeroUpgrade(d: HeroUpgradeData): (r: HeroUpgradeData)
    ensures HeroUpgradeValid(r)
    ensures HeroUpgradeValid(d) ==> r == d
  {
    HeroUpgradeData(ValidateUpgrade(d.upgrade), if d.manaPointsMaxUp < 0 then 0 else d.manaPointsMaxUp)
  }

  // ---------------------------------------------------------------- shop settings

  datatype ShopSettings = ShopSettings(minionParameters: UnitParameters, creationSpeed: real, shopDatas: seq<ShopData>)

  function LevelsCount(s: ShopSettings): nat {
    |s.shopDatas|
  }

  predicate ShopSettingsValid(s: ShopSettings) {
    s.creationSpeed >= CreationSpeedMin && forall k :: 0 <= k < |s.shopDatas| ==> ShopDataValid(s.shopDatas[k])
  }

  /** OnValidate: clamp the creation speed from below and validate every entry. */
  function ValidateShopSettings(s: ShopSettings): (r: ShopSettings)
    ensures ShopSettingsValid(r)
    ensures r.minionParameters == s.minionParameters && |r.shopDatas| == |s.shopDatas|
    ensures ShopSettingsValid(s) ==> r == s
  {
    var datas := seq(|s.shopDatas|, k requires 0 <= k < |s.shopDatas| => ValidateShopData(s.shopDatas[k]));
    ShopSettings(s.minionParameters, if s.creationSpeed < CreationSpeedMin then CreationSpeedMin else s.creationSpeed, datas)
  }

  /**
   * GetUpgradeCost: the price of leaving `level`; a level below 1 throws,
   * a level past the last entry costs long.MaxValue.
   */
  function GetUpgradeCost(s: ShopSettings, level: int): (r: Result<int>)
    ensures level < 1 <==> r.Err?
    ensures r.Err? ==> r.error == ArgumentOutOfRange
    ensures level > LevelsCount(s) ==> r.Ok? ==> r.value == LongMax
    ensures 1 <= level <= LevelsCount(s) ==> r == Ok(s.shopDatas[level - 1].upgrade.upgradeCost)
  {
    if level < 1 then Err(ArgumentOutOfRange)
    else if |s.shopDatas| < level then Ok(LongMax)
    else Ok(s.shopDatas[level - 1].upgrade.upgradeCost)
  }

  function ShopUpgradeParameters(datas: seq<ShopData>): (r: seq<UnitParameters>)
    ensures |r| == |datas| && forall k :: 0 <= k < |datas| ==> r[k] == datas[k].upgrade.parameters
  {
    seq(|datas|, k requires 0 <= k < |datas| => datas[k].upgrade.parameters)
  }

  /**
   * The base parameters plus the sum of the first level - 1 upgrades' ones
   * (all of them if there are fewer); the sum of nothing throws.
   */
  function ParametersAtLevel(base: UnitParameters, ups: seq<UnitParameters>, level: int): (r: Result<UnitParameters>)
    ensures level <= 1 ==> r == Ok(base)
    ensures level > 1 ==> (r.Err? <==> ups == [])
    ensures r.Err? ==> r.error == InvalidOperation
    ensures level > 1 && r.Ok? ==> Valid(r.value)
  {
    if level <= 1 then Ok(base)
    else
      var sum := Sum(Take(ups, level - 1));
      if sum.Err? then Err(InvalidOperation) else Ok(Plus(base, sum.value))
  }

  /** GetUnitParameters of a shop. */
  function ShopUnitParameters(s: ShopSettings, level: int): (r: Result<UnitParameters>)
    ensures level <= 1 ==> r == Ok(s.minionParameters)
    ensures level > 1 && LevelsCount(s) == 0 ==> r == Err(InvalidOperation)
    ensures level > 1 && LevelsCount(s) > 0 ==> r.Ok? && Valid(r.value)
  {
    ParametersAtLevel(s.minionParameters, ShopUpgradeParameters(s.shopDatas), level)
  }

  /** Levels past the last upgrade entry all get the parameters of the level just past it. */
  lemma ParametersSaturate(base: UnitParameters, ups: seq<UnitParameters>, level: int)
    requires ups != [] && level > |ups| + 1
    ensures ParametersAtLevel(base, ups, level) == ParametersAtLevel(base, ups, |ups| + 1)
  {
    assert Take(ups, level - 1) == ups == Take(ups, |ups|);
  }

  /**
   * With valid entries, each level adds exactly one more entry's health to
   * the running sum: the health maximum at level + 1 exceeds that at level
   * by the level-th entry's.
   */
  lemma ParametersHealthStep(base: UnitParameters, ups: seq<UnitParameters>, level: int)
    requires Valid(base) && forall k :: 0 <= k < |ups| ==> Valid(ups[k])
    requires 1 <= level <= |ups|
    ensures ParametersAtLevel(base, ups, level + 1).Ok? && ParametersAtLevel(base, ups, level).Ok?
    ensures ParametersAtLevel(base, ups, level + 1).value.healPointsMax
            == ParametersAtLevel(base, ups, level).value.healPointsMax + ups[level - 1].healPointsMax
  {
    var prefix := Take(ups, level);
    assert prefix == ups[..level - 1] + [ups[level - 1]];
    SumOfValid(prefix);
    PlusOfValid(base, Sum(prefix).value);
    if level > 1 {
      SumOfValid(ups[..level - 1]);
      PlusOfValid(base, Sum(ups[..level - 1]).value);
      assert HealPointsTotal(prefix) == HealPointsTotal(ups[..level - 1]) + ups[level - 1].healPointsMax;
    } else {
      assert prefix == [ups[0]];
    }
  }

  function SpeedUpTotal(datas: seq<ShopData>): real {
    if datas == [] then 0.0 else SpeedUpTotal(datas[..|datas| - 1]) + datas[|datas| - 1].creatingSpeedUp
  }

  /** GetCreationSpeed: the base speed plus the first level - 1 entries' increases. */
  function GetCreationSpeed(s: ShopSettings, level: int): (r: real)
    ensures level <= 1 ==> r == s.creationSpeed
  {
    if level > 1 then s.creationSpeed + SpeedUpTotal(Take(s.shopDatas, level - 1)) else s.creationSpeed
  }

  lemma {:induction false} SpeedUpTotalPrefix(datas: seq<ShopData>, n: nat)
    requires n <= |datas| && forall k :: 0 <= k < |datas| ==> ShopDataValid(datas[k])
    ensures 0.0 <= SpeedUpTotal(datas[..n]) <= SpeedUpTotal(datas)
    decreases |datas|
  {
    if datas != [] {
      var init := datas[..|datas| - 1];
      if n == |datas| {
        assert datas[..n] == datas;
        SpeedUpTotalPrefix(init, |init|);
        assert init[..|init|] == init;
      } else {
        assert datas[..n] == init[..n];
        SpeedUpTotalPrefix(init, n);
      }
    }
  }

  /**
   * After OnValidate the creation speed is positive (so the spawn delay
   * 1 / speed is defined) and never decreases with the level.
   */
  lemma CreationSpeedMonotone(s: ShopSettings, level: int)
    requires ShopSettingsValid(s)
    ensures CreationSpeedMin <= GetCreationSpeed(s, level) <= GetCreationSpeed(s, level + 1)
  {
    if level > 1 {
      SpeedUpTotalPrefix(Take(s.shopDatas, level), |Take(s.shopDatas, level - 1)|);
      assert Take(s.shopDatas, level)[..|Take(s.shopDatas, level - 1)|] == Take(s.shopDatas, level - 1);
    } else if level == 1 {
      SpeedUpTotalPrefix(Take(s.shopDatas, 1), 0);
    }
  }

  // ---------------------------------------------------------------- hero data

  /** HeroData: the base unit parameters, the base mana maximum and the per-level upgrades. */
  datatype HeroData = HeroData(parameters: UnitParameters, manaPointsMax: int, upgrades: seq<HeroUpgradeData>)

  predicate HeroDataValid(d: HeroData) {
    Valid(d.parameters) && d.manaPointsMax >= 0 && forall k :: 0 <= k < |d.upgrades| ==> HeroUpgradeValid(d.upgrades[k])
  }

  /** OnValidate of HeroData and of the UnitData it extends. */
  function ValidateHeroData(d: HeroData): (r: HeroData)
    ensures HeroDataValid(r) && |r.upgrades| == |d.upgrades|
    ensures HeroDataValid(d) ==> r == d
  {
    var ups := seq(|d.upgrades|, k requires 0 <= k < |d.upgrades| => ValidateHeroUpgrade(d.upgrades[k]));
    HeroData(ValidateValues(d.parameters), if d.manaPointsMax < 0 then 0 else d.manaPointsMax, ups)
  }

  /**
   * GetNeededExpForNextLevel: the price of the level-th upgrade, or
   * long.MaxValue past the last one. A level below 1 indexes before the
   * list and throws.
   */
  function NeededExpForNextLevel(d: HeroData, level: int): (r: Result<int>)
    ensures r.Err? <==> level < 1
    ensures r.Err? ==> r.error == ArgumentOutOfRange
    ensures level > |d.upgrades| ==> r == Ok(LongMax)
    ensures 1 <= level <= |d.upgrades| ==> r == Ok(d.upgrades[level - 1].upgrade.upgradeCost)
  {
    if |d.upgrades| >= level then
      if level < 1 then Err(ArgumentOutOfRange) else Ok(d.upgrades[level - 1].upgrade.upgradeCost)
    else Ok(LongMax)
  }

  function HeroUpgradeParameters(ups: seq<HeroUpgradeData>): (r: seq<UnitParameters>)
    ensures |r| == |ups| && forall k :: 0 <= k < |ups| ==> r[k] == ups[k].upgrade.parameters
  {
    seq(|ups|, k requires 0 <= k < |ups| => ups[k].upgrade.parameters)
  }

  /** GetUnitParameters of a hero. */
  function HeroUnitParameters(d: HeroData, level: int): (r: Result<UnitParameters>)
    ensures level <= 1 ==> r == Ok(d.parameters)
    ensures level > 1 && d.upgrades == [] ==> r == Err(InvalidOperation)
    ensures level > 1 && d.upgrades != [] ==> r.Ok? && Valid(r.value)
  {
    ParametersAtLevel(d.parameters, HeroUpgradeParameters(d.upgrades), level)
  }

  function ManaUpTotal(ups: seq<HeroUpgradeData>): int {
    if ups == [] then 0 else ManaUpTotal(ups[..|ups| - 1]) + ups[|ups| - 1].manaPointsMaxUp
  }

  /** GetManaPointsMax: the base maximum plus the first level - 1 upgrades' increases. */
  function ManaPointsMaxAt(d: HeroData, level: int): (r: int)
    ensures level <= 1 ==> r == d.manaPointsMax
  {
    if level > 1 then d.manaPointsMax + ManaUpTotal(Take(d.upgrades, level - 1)) else d.manaPointsMax
  }

  lemma {:induction false} ManaUpTotalPrefix(ups: seq<HeroUpgradeData>, n: nat)
    requires n <= |ups| && forall k :: 0 <= k < |ups| ==> HeroUpgradeValid(ups[k])
    ensures 0 <= ManaUpTotal(ups[..n]) <= ManaUpTotal(ups)
    decreases |ups|
  {
    if ups != [] {
      var init := ups[..|ups| - 1];
      if n == |ups| {
        assert ups[..n] == ups;
        ManaUpTotalPrefix(init, |init|);
        assert init[..|init|] == init;
      } else {
        assert ups[..n] == init[..n];
        ManaUpTotalPrefix(init, n);
      }
    }
  }

  /** With validated data the mana maximum is never negative and never decreases with the level. */
  lemma ManaPointsMaxMonotone(d: HeroData, level: int)
    requires HeroDataValid(d)
    ensures 0 <= ManaPointsMaxAt(d, level) <= ManaPointsMaxAt(d, level + 1)
  {
    if level > 1 {
      ManaUpTotalPrefix(Take(d.upgrades, level), |Take(d.upgrades, level - 1)|);
      assert Take(d.upgrades, level)[..|Take(d.upgrades, level - 1)|] == Take(d.upgrades, level - 1);
    } else if level == 1 {
      ManaUpTotalPrefix(Take(d.upgrades, 1), 0);
    }
  }
}
