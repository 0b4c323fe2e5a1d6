/**
 * The player's economy: PlayerResources, a gold counter of type long with
 * spend-if-enough and the hero whose level and experience the HUD shows,
 * and Shop, the barracks whose minion level is bought with that gold and
 * whose one upgrade button is refreshed whenever the gold crosses its
 * price.
 */
module Economy {
  import opened Wrappers
  import opened Targets
  import opened UnitParams
  import opened LevelTables
  import opened Delegates

  // ---------------------------------------------------------------- long arithmetic

  /** long.MinValue; long.MaxValue is LongMax. */
  const LongMin: int := -0x8000_0000_0000_0000

  predicate IsLong(x: int) {
    LongMin <= x <= LongMax
  }

  /** Unchecked 64-bit two's-complement arithmetic: x reduced into the long range modulo 2^64. */
  function WrapLong(x: int): (r: int)
    ensures IsLong(r)
    ensures IsLong(x) ==> r == x
    ensures (x - r) % 0x1_0000_0000_0000_0000 == 0
  {
    (x - LongMin) % 0x1_0000_0000_0000_0000 + LongMin
  }

  /** Math.Abs on a long: the one value without a positive counterpart throws. */
  function AbsLong(x: int): (r: Result<int>)
    requires IsLong(x)
    ensures r.Err? <==> x == LongMin
    ensures r.Err? ==> r.error == Overflow
    ensures r.Ok? ==> IsLong(r.value) && r.value >= 0 && (r.value == x || r.value == -x)
  {
    if x == LongMin then Err(Overflow) else if x < 0 then Ok(-x) else Ok(x)
  }

  // ---------------------------------------------------------------- player resources

  /** PlayerResources.DEFAULT_STARTING_GOLD. */
  const DefaultStartingGold: int := 100

  /** HeroResourceData: what the HUD shows of the hero. */
  datatype HeroResourceData = HeroResourceData(level: int, exp: int, expMax: int)

  /** What the resources' listeners receive. */
  datatype ResourceEvent =
    | GoldChanged(oldValue: int, newValue: int)  // OnGoldChange with a ChangedValue<long>
    | HeroDataChanged(data: HeroResourceData)    // OnHeroResourcesDataChange
    | NewSourceHero(hero: UnitId)                // OnNewSourceHero

  /** The gold after AddGold(amount): the magnitude is added, in unchecked long arithmetic. */
  function GoldAfterAdd(gold: int, amount: int): (r: int)
    requires IsLong(gold) && IsLong(amount) && amount != LongMin
    ensures IsLong(r)
    ensures gold + AbsLong(amount).value <= LongMax ==> r >= gold && r - gold == AbsLong(amount).value
  {
    WrapLong(gold + AbsLong(amount).value)
  }

  /** The gold after a TrySpendGold(amount) that succeeded, in unchecked long arithmetic. */
  function GoldAfterSpend(gold: int, amount: int): (r: int)
    requires IsLong(gold) && IsLong(amount) && gold >= amount
    ensures IsLong(r)
    ensures amount >= 0 ==> 0 <= r <= gold && r + amount == gold
  {
    WrapLong(gold - amount)
  }

  /** Without overflow, gold that starts non-negative stays non-negative through both operations. */
  lemma GoldStaysNonNegative(gold: int, amount: int)
    requires IsLong(gold) && IsLong(amount) && gold >= 0
    ensures amount != LongMin && gold + AbsLong(amount).value <= LongMax ==> GoldAfterAdd(gold, amount) >= 0
    ensures gold >= amount && gold - amount <= LongMax ==> GoldAfterSpend(gold, amount) >= 0
  {
  }

  /** Spending a negative amount always succeeds and is the same as adding it. */
  lemma NegativeSpendIsAdd(gold: int, amount: int)
    requires IsLong(gold) && IsLong(amount) && gold >= 0 && LongMin < amount < 0
    ensures gold >= amount
    ensures GoldAfterSpend(gold, amount) == GoldAfterAdd(gold, amount)
  {
  }

  /** Adding back what was spent restores the gold. */
  lemma SpendThenAddRestores(gold: int, amount: int)
    requires IsLong(gold) && 0 <= amount <= gold
    ensures GoldAfterAdd(GoldAfterSpend(gold, amount), amount) == gold
  {
  }

  class PlayerResources {
    var gold: int
    /** SourceHero, by id. */
    var sourceHero: Option<UnitId>
    /** The heroes whose OnHeroResourcesDataChange the resources listen to, one entry per subscription. */
    var heroSubs: seq<UnitId>
    /** Every event the listeners received, in order. */
    var events: seq<ResourceEvent>

    ghost predicate Valid()
      reads this
    {
      IsLong(gold) && (sourceHero.Some? ==> sourceHero.value in heroSubs)
    }

    /** A fresh component: DEFAULT_STARTING_GOLD and no source hero. */
    constructor ()
      ensures Valid() && gold == DefaultStartingGold && sourceHero == None && heroSubs == [] && events == []
    {
      gold := DefaultStartingGold;
      sourceHero := None;
      heroSubs := [];
      events := [];
    }

    /** AddGold: the magnitude of the amount is added, whatever its sign, and the change is announced. */
    method AddGold(amount: int) returns (r: Outcome)
      requires Valid() && IsLong(amount)
      modifies this`gold, this`events
      ensures Valid()
      ensures r.Fail? <==> amount == LongMin
      ensures r.Fail? ==> r.error == Overflow && unchanged(this)
      ensures r.Done? ==> gold == GoldAfterAdd(old(gold), amount)
                          && events == old(events) + [GoldChanged(old(gold), gold)]
    {
      var abs := AbsLong(amount);
      if abs.Err? {
        return Fail(abs.error);
      }
      var previous := gold;
      gold := WrapLong(gold + abs.value);
      events := events + [GoldChanged(previous, gold)];
      r := Done;
    }

    /** TrySpendGold: succeeds iff there is enough gold; only a success changes the gold and is announced. */
    method TrySpendGold(amount: int) returns (spent: bool)
      requires Valid() && IsLong(amount)
      modifies this`gold, this`events
      ensures Valid()
      ensures spent <==> old(gold) >= amount
      ensures !spent ==> unchanged(this)
      ensures spent ==> gold == GoldAfterSpend(old(gold), amount)
                        && events == old(events) + [GoldChanged(old(gold), gold)]
    {
      if gold >= amount {
        var previous := gold;
        gold := WrapLong(gold - amount);
        events := events + [GoldChanged(previous, gold)];
        return true;
      }
      return false;
    }

    /**
     * SetSourceHero: a null or destroyed hero throws. Otherwise the
     * subscription moves from the previous hero (a destroyed one compares
     * equal to null and keeps it) to the new one, whose current data and
     * arrival are announced. `missing` says which heroes are destroyed and
     * `dataOf` gives each hero's GetHeroResourceData.
     */
    method SetSourceHero(hero: Option<UnitId>, missing: UnitId -> bool, dataOf: UnitId -> HeroResourceData)
      returns (r: Outcome)
      requires Valid()
      modifies this`sourceHero, this`heroSubs, this`events
      ensures Valid()
      ensures r.Fail? <==> hero.None? || missing(hero.value)
      ensures r.Fail? ==> r.error == ArgumentNull && unchanged(this)
      ensures r.Done? ==> sourceHero == hero
      ensures r.Done? ==> heroSubs == (if old(sourceHero).Some? && !missing(old(sourceHero).value)
                                      then RemoveLast(old(heroSubs), old(sourceHero).value)
                                      else old(heroSubs)) + [hero.value]
      ensures r.Done? ==> events == old(events) + [HeroDataChanged(dataOf(hero.value)), NewSourceHero(hero.value)]
    {
      if hero.None? || missing(hero.value) {
        return Fail(ArgumentNull);
      }
      if sourceHero.Some? && !missing(sourceHero.value) {
        heroSubs := RemoveLast(heroSubs, sourceHero.value);
      }
      sourceHero := hero;
      heroSubs := heroSubs + [hero.value];
      events := events + [HeroDataChanged(dataOf(hero.value)), NewSourceHero(hero.value)];
      r := Done;
    }

    /** GetHeroResourceData: the source hero's data; no source hero, or a destroyed one, throws. */
    function GetHeroResourceData(missing: UnitId -> bool, dataOf: UnitId -> HeroResourceData): (r: Result<HeroResourceData>)
      reads this`sourceHero
      ensures r.Err? <==> sourceHero.None? || missing(sourceHero.value)
      ensures r.Err? ==> r.error == NullReference
      ensures r.Ok? ==> r.value == dataOf(sourceHero.value)
    {
      if sourceHero.None? || missing(sourceHero.value) then Err(NullReference)
      else Ok(dataOf(sourceHero.value))
    }
  }

  /** Once a hero is set, the resources report exactly that hero's data while it exists. */
  lemma SourceHeroDataRoundTrip(r: PlayerResources, hero: UnitId, missing: UnitId -> bool, dataOf: UnitId -> HeroResourceData)
    requires r.sourceHero == Some(hero) && !missing(hero)
    ensures r.GetHeroResourceData(missing, dataOf) == Ok(dataOf(hero))
  {
  }

  // ---------------------------------------------------------------- shop

  /** Shop.LEVEL_MIN. */
  const LevelMin: int := 1

  /** ClampLevel: at least LEVEL_MIN and, when there are settings, at most one past their last entry. */
  function ClampLevel(level: int, settings: Option<ShopSettings>): (r: int)
    ensures r >= LevelMin
    ensures settings.Some? ==> r <= LevelsCount(settings.value) + 1
    ensures level >= LevelMin && (settings.None? || level <= LevelsCount(settings.value) + 1) ==> r == level
    ensures level < LevelMin ==> r == LevelMin
    ensures settings.Some? && level > LevelsCount(settings.value) + 1 ==> r == LevelsCount(settings.value) + 1
  {
    var atLeast := if level < LevelMin then LevelMin else level;
    if settings.Some? && atLeast > LevelsCount(settings.value) + 1 then LevelsCount(settings.value) + 1 else atLeast
  }

  /** A shop button: its index, the upgrade price its text shows, and whether it can be pressed. */
  datatype Button = Button(index: int, cost: int, isActive: bool)

  /** What the shop's listeners receive. */
  datatype ShopEvent =
    | ButtonsChanged(buttons: seq<Button>)  // OnButtonsChanges
    | ShowableDataChanged(level: int)       // OnShowableDataChanges; only the level of its text is kept

  /**
   * GetButtons as written: no button from level LevelsCount on, so the
   * price of the last entry is never offered (see LastUpgradeNeverOffered).
   */
  function ButtonsAsWritten(s: ShopSettings, level: int, gold: int): (r: seq<Button>)
    requires level >= LevelMin
    ensures |r| <= 1
    ensures r != [] <==> level < LevelsCount(s)
    ensures r != [] ==> r[0].index == 0 && GetUpgradeCost(s, level) == Ok(r[0].cost)
                        && (r[0].isActive <==> gold >= r[0].cost)
  {
    if level >= LevelsCount(s) then []
    else
      var cost := GetUpgradeCost(s, level).value;
      [Button(0, cost, gold >= cost)]
  }

  /** GetButtons with the last entry offered: one upgrade button at every level that has an entry. */
  function Buttons(s: ShopSettings, level: int, gold: int): (r: seq<Button>)
    requires level >= LevelMin
    ensures |r| <= 1
    ensures r != [] <==> level <= LevelsCount(s)
    ensures r != [] ==> r[0].index == 0 && GetUpgradeCost(s, level) == Ok(r[0].cost)
                        && (r[0].isActive <==> gold >= r[0].cost)
  {
    if level > LevelsCount(s) then []
    else
      var cost := GetUpgradeCost(s, level).value;
      [Button(0, cost, gold >= cost)]
  }

  /**
   * As written, a shop with entries shows no button at the level of its last
   * entry, although that entry has a price and ClampLevel admits the level
   * past it: the last upgrade cannot be bought.
   */
  lemma LastUpgradeNeverOffered(s: ShopSettings, gold: int)
    requires LevelsCount(s) >= 1
    ensures ButtonsAsWritten(s, LevelsCount(s), gold) == []
    ensures GetUpgradeCost(s, LevelsCount(s)) == Ok(s.shopDatas[LevelsCount(s) - 1].upgrade.upgradeCost)
    ensures ClampLevel(LevelsCount(s) + 1, Some(s)) == LevelsCount(s) + 1
    ensures Buttons(s, LevelsCount(s), gold) == [Button(0, s.shopDatas[LevelsCount(s) - 1].upgrade.upgradeCost,
                                                       gold >= s.shopDatas[LevelsCount(s) - 1].upgrade.upgradeCost)]
  {
  }

  /** Every entry's price is offered at its level, and below the last level both versions agree. */
  lemma EveryUpgradeOffered(s: ShopSettings, level: int, gold: int)
    requires LevelMin <= level <= LevelsCount(s)
    ensures Buttons(s, level, gold) == [Button(0, s.shopDatas[level - 1].upgrade.upgradeCost,
                                               gold >= s.shopDatas[level - 1].upgrade.upgradeCost)]
    ensures level < LevelsCount(s) ==> ButtonsAsWritten(s, level, gold) == Buttons(s, level, gold)
  {
  }

  /** OnGoldChangeHandler's test: the old and new gold lie on different sides of the price. */
  predicate CrossesCost(oldGold: int, newGold: int, cost: int) {
    (oldGold < cost && newGold >= cost) || (oldGold >= cost && newGold < cost)
  }

  /** The buttons are refreshed exactly when the gold change flips whether the upgrade button is active. */
  lemma RefreshExactlyWhenButtonFlips(s: ShopSettings, level: int, oldGold: int, newGold: int)
    requires LevelMin <= level <= LevelsCount(s)
    ensures CrossesCost(oldGold, newGold, GetUpgradeCost(s, level).value)
            <==> Buttons(s, level, oldGold) != Buttons(s, level, newGold)
  {
    EveryUpgradeOffered(s, level, oldGold);
    EveryUpgradeOffered(s, level, newGold);
  }

  /**
   * As written, below the last entry's level the buttons are refreshed
   * exactly when the gold change flips the upgrade button; at the last
   * entry's level a crossing still resends the list, which is empty both
   * times.
   */
  lemma RefreshWhenButtonFlipsAsWritten(s: ShopSettings, level: int, oldGold: int, newGold: int)
    requires LevelMin <= level <= LevelsCount(s)
    ensures level < LevelsCount(s) ==>
              (CrossesCost(oldGold, newGold, GetUpgradeCost(s, level).value)
               <==> ButtonsAsWritten(s, level, oldGold) != ButtonsAsWritten(s, level, newGold))
    ensures level == LevelsCount(s) ==>
              ButtonsAsWritten(s, level, oldGold) == [] == ButtonsAsWritten(s, level, newGold)
  {
    if level < LevelsCount(s) {
      RefreshExactlyWhenButtonFlips(s, level, oldGold, newGold);
      EveryUpgradeOffered(s, level, oldGold);
      EveryUpgradeOffered(s, level, newGold);
    }
  }

  /** Every price in the settings fits in a long. */
  predicate CostsAreLongs(s: ShopSettings) {
    forall k :: 0 <= k < |s.shopDatas| ==> IsLong(s.shopDatas[k].upgrade.upgradeCost)
  }

  /**
   * Shop, as an upgrade seller: its level, the parameters its minions get,
   * and its listeners' events. The spawning of minions is not modelled.
   * `resources` is the injected PlayerResources, whose OnGoldChange the
   * shop has subscribed to (OnInjected).
   */
  class Shop {
    const settings: ShopSettings
    const resources: PlayerResources
    var level: int
    /** currentUnitParameters. */
    var parameters: UnitParameters
    var events: seq<ShopEvent>

    /** A clamped level whose parameters are the current ones. */
    ghost predicate Valid()
      reads this, resources
    {
      resources.Valid() && CostsAreLongs(settings)
      && LevelMin <= level <= LevelsCount(settings) + 1
      && ShopUnitParameters(settings, level) == Ok(parameters)
    }

    /** The current upgrade price: long.MaxValue once every entry is bought. */
    function UpgradeCost(): (c: int)
      requires LevelMin <= level
      reads this`level
      ensures GetUpgradeCost(settings, level) == Ok(c)
      ensures level <= LevelsCount(settings) ==> c == settings.shopDatas[level - 1].upgrade.upgradeCost
      ensures level > LevelsCount(settings) ==> c == LongMax
    {
      GetUpgradeCost(settings, level).value
    }

    /** OnValidate then Start: the configured level clamped, and its parameters. */
    constructor (settings: ShopSettings, resources: PlayerResources, configuredLevel: int)
      requires resources.Valid() && CostsAreLongs(settings)
      ensures Valid() && this.settings == settings && this.resources == resources
      ensures level == ClampLevel(configuredLevel, Some(settings)) && events == []
    {
      this.settings := settings;
      this.resources := resources;
      level := ClampLevel(configuredLevel, Some(settings));
      parameters := ShopUnitParameters(settings, ClampLevel(configuredLevel, Some(settings))).value;
      events := [];
    }

    /**
     * GetButtons: the upgrade button for the current level and gold, none
     * from the level of the last entry on (as written).
     */
    function GetButtons(): (r: seq<Button>)
      requires Valid()
      reads this, resources
      ensures r != [] <==> level < LevelsCount(settings)
      ensures r != [] ==> r == [Button(0, UpgradeCost(), resources.gold >= UpgradeCost())]
    {
      ButtonsAsWritten(settings, level, resources.gold)
    }

    /** OnGoldChangeHandler: the buttons are sent again only when the change crosses the current price. */
    method OnGoldChange(oldGold: int, newGold: int)
      requires Valid()
      modifies this`events
      ensures Valid()
      ensures CrossesCost(oldGold, newGold, UpgradeCost()) ==> events == old(events) + [ButtonsChanged(GetButtons())]
      ensures !CrossesCost(oldGold, newGold, UpgradeCost()) ==> events == old(events)
    {
      var cost := GetUpgradeCost(settings, level).value;
      if (oldGold < cost && newGold >= cost) || (oldGold >= cost && newGold < cost) {
        events := events + [ButtonsChanged(ButtonsAsWritten(settings, level, resources.gold))];
      }
    }

    /** LevelUp: one level more, clamped; new parameters; the new data and buttons are sent. */
    method LevelUp()
      requires Valid()
      modifies this`level, this`parameters, this`events
      ensures Valid()
      ensures level == ClampLevel(old(level) + 1, Some(settings))
      ensures old(level) <= LevelsCount(settings) ==> level == old(level) + 1
      ensures events == old(events) + [ShowableDataChanged(level), ButtonsChanged(GetButtons())]
    {
      level := ClampLevel(level + 1, Some(settings));
      parameters := ShopUnitParameters(settings, level).value;
      events := events + [ShowableDataChanged(level), ButtonsChanged(ButtonsAsWritten(settings, level, resources.gold))];
    }

    /**
     * OnUpgradeClickHandler: the level rises only when the current price is
     * paid. The payment's gold change reaches this shop, at the old level,
     * before LevelUp.
     */
    method OnUpgradeClick() returns (paid: bool)
      requires Valid()
      modifies this`level, this`parameters, this`events, resources`gold, resources`events
      ensures Valid()
      ensures paid <==> old(resources.gold) >= old(UpgradeCost())
      ensures !paid ==> unchanged(this, resources)
      ensures paid ==> resources.gold == GoldAfterSpend(old(resources.gold), old(UpgradeCost()))
      ensures paid ==> level == ClampLevel(old(level) + 1, Some(settings))
      ensures paid ==> events == old(events)
                        + (if CrossesCost(old(resources.gold), resources.gold, old(UpgradeCost()))
                           then [ButtonsChanged(ButtonsAsWritten(settings, old(level), resources.gold))] else [])
                        + [ShowableDataChanged(level), ButtonsChanged(GetButtons())]
    {
      var cost := GetUpgradeCost(settings, level).value;
      var before := resources.gold;
      paid := resources.TrySpendGold(cost);
      if paid {
        OnGoldChange(before, resources.gold);
        LevelUp();
      }
    }
  }

  /** A paid upgrade below the last level costs exactly that level's entry and moves to the next level. */
  lemma UpgradeBuysTheNextLevel(s: ShopSettings, level: int, gold: int)
    requires IsLong(gold) && CostsAreLongs(s) && LevelMin <= level <= LevelsCount(s)
    requires gold >= s.shopDatas[level - 1].upgrade.upgradeCost >= 0
    ensures ClampLevel(level + 1, Some(s)) == level + 1
    ensures GoldAfterSpend(gold, GetUpgradeCost(s, level).value) == gold - s.shopDatas[level - 1].upgrade.upgradeCost
    ensures ShopUnitParameters(s, level + 1).Ok?
  {
  }
}
