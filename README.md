# RTS Survival Game — a Dafny model of the game core

This project models the gameplay core of a small real-time strategy survival
game built in Unity. The player commands a group of heroes and units. They
fight waves of enemies, cast skills, level up, buy upgrades in a shop and
defend a throne. The model follows the game's C# scripts class by class:

- **Units and heroes** (`Units`, `Combat`, `Health`, `Strategies`, `UnitParams`,
  `LevelTables`). The per-frame work loop covers target search, chasing,
  attack recharge, damage reduced by armour, death, and experience and
  levels. A hero also has skills, mana and skill points.
- **Skills and effects** (`Skills`, `Effects`, `Targets`, `PointCheckers`,
  `Timer`). This covers skill parameters and their validation, casting costs
  and cooldowns, area and unit targeting, and count-down timers.
- **The units keeper** (`Keepers`). It indexes the living units by team in
  a KD-tree (`KDTreeSpec`, `KDTreeProofs`, `KDTreeSearch`, `KDTrees`). The
  tree is an arena of nodes with insertion, rebuild, filtering, and
  range, circle and closest-point searches.
- **Input and selection** (`Selection`). The mouse selector's states cover
  selecting and moving, and picking a skill target. They also cover the
  selection box and the per-frame highlight action.
- **Economy** (`Economy`). Gold, the shop's upgrade buttons and their prices.
- **The throne** (`Buildings`) and **squads** of units (`Squads`).
- **Infrastructure**. This is the dependency-injection container (`DI`), the
  object pool (`Pooling`), and the small delegate and enumerable helpers
  (`Delegates`, `Enumerables`).

Each class whose fields the game updates in place is a Dafny `class` whose
methods name what they modify. Pure calculations are functions, and each
carries lemmas that state what the game promises of them. The engine and
anything outside the scripts are parameters: the physics raycasts,
positions, distances, time, the camera and the cursor. Calls into such code
are recorded in value logs that the contracts speak about.

## Model

| member | source | states |
|---|---|---|
| Geometry.Truncate | Assets/Scripts/Units/Unit.cs:584-594 | C#'s `(int)` of a float rounds toward zero: for a non-negative value the result is the largest integer not above it, for a negative one the smallest not below it |
| Geometry.Min3 | Assets/Scripts/InputHandling/SelectAndMoveState.cs:111-129 | `Vector3.Min` picks, in x and z, the smaller of the two components |
| Geometry.Max3 | Assets/Scripts/InputHandling/SelectAndMoveState.cs:111-129 | `Vector3.Max` picks, in x and z, the larger of the two components |
| Targets.Opponent | Assets/Scripts/TargetsProvider.cs:61-64 | Enemies face Friends and every other team faces Enemies; the opponent is never the team itself |
| Targets.OpponentInvolution | Assets/Scripts/TargetsProvider.cs:61-64 | for the two playing teams the opponent of the opponent is the team again |
| Targets.OpponentOfOtherTeam | Assets/Scripts/TargetsProvider.cs:61-64 | a third team is not recovered: its opponent's opponent is Friends |
| Targets.AttackableBy | Assets/Scripts/Units/UnitEnemy.cs:27 | an enemy unit accepts exactly Friends as attackers; friendly units and the throne accept Enemies |
| Targets.OnlyOpponentsAttack | Assets/Scripts/Units/UnitFriendly.cs:42 | whoever a target accepts as attacker is the opponent of the target's own team |
| Targets.GroundState | Assets/Scripts/AreaTarget.cs:24-30 | a point or area target is never missing, is not attackable and sits where it was made |
| Targets.NewAreaTarget | Assets/Scripts/AreaTarget.cs:24-30 | the constructor throws ArgumentException exactly for a negative radius and otherwise keeps centre and radius |
| Targets.AreaTargetRadiusNonNegative | Assets/Scripts/AreaTarget.cs:24-30 | every area target that exists has a radius of at least zero, and zero is accepted |
| Health.NewChangedHealthArgs | Assets/Scripts/ChangedHealthArgs.cs:22-31 | the event is built exactly when the fullness lies in [0, 1], else ArgumentOutOfRange; the fields are stored as given |
| Health.Fullness | Assets/Scripts/Units/UnitSquad.cs:141-160 | zero for a non-positive health or a zero maximum; positive for positive health; at most 1 up to the maximum and exactly 1 at it |
| Health.FullnessAccepted | Assets/Scripts/Units/Unit.cs:432-441 | a health at most its positive maximum always gives an event the constructor accepts |
| Health.OverfullRejected | Assets/Scripts/ChangedHealthArgs.cs:22-31 | a health above its maximum gives a fullness the constructor rejects with ArgumentOutOfRange |
| Delegates.RemoveLast | Assets/Scripts/Units/UnitSquad.cs:91-98 | `-=` leaves the list unchanged for an absent handler and removes one entry otherwise |
| Delegates.RemoveLastCounts | Assets/Scripts/Units/UnitSquad.cs:91-98 | a delegate `-=` removes exactly one subscription of the handler (as a multiset), or none when it is absent |
| Delegates.RemoveEachCounts | Assets/Scripts/Units/UnitSquad.cs:91-98 | unsubscribing once per member removes, with multiplicity, exactly one subscription per member |
| Effects.NullCases | Assets/Scripts/Skills/Effects/EffectsEqualityComparer.cs:19-28 | two nulls are equal and a null never equals an effect |
| Effects.EqualIffSameDataType | Assets/Scripts/Skills/Effects/EffectsEqualityComparer.cs:19-28 | two effects are equal exactly when their effect data have the same type |
| Effects.Equivalence | Assets/Scripts/Skills/Effects/EffectsEqualityComparer.cs:19-28 | the comparer is reflexive, symmetric and transitive on nullable effects |
| Effects.EqualHashesAgree | Assets/Scripts/Skills/Effects/EffectsEqualityComparer.cs:35 | effects the comparer calls equal have equal hash codes |
| Enumerables.ForEach | Assets/Scripts/Extensions/ExIEnumerable.cs:17-31 | a null source throws NullReference before any call; otherwise the calls made are item by item, each non-null action in turn |
| Enumerables.ActionCalls | Assets/Scripts/Extensions/ExIEnumerable.cs:17-31 | the calls on one item go to that item, and only to non-null actions |
| Enumerables.CallsLength | Assets/Scripts/Extensions/ExIEnumerable.cs:17-31 | the number of calls is the number of non-null items times the number of non-null actions |
| Enumerables.CallsSkipNulls | Assets/Scripts/Extensions/ExIEnumerable.cs:17-31 | every call pairs a non-null action with a non-null item of the source |
| Enumerables.ItemByItem | Assets/Scripts/Extensions/ExIEnumerable.cs:17-31 | the calls of earlier items all come before those of later items (the trace of a prefix is a prefix) |
| PointCheckers.IgnoresHeight | Assets/Scripts/DataStructures/PointCheckerInRectangle.cs:31-35 | neither the point's height nor the checker's heights change the answer of either checker |
| PointCheckers.RectangleCornersInclusive | Assets/Scripts/DataStructures/PointCheckerInRectangle.cs:31-35 | the rectangle's edges are inclusive: all four corners are inside |
| PointCheckers.InvertedRectangleEmpty | Assets/Scripts/DataStructures/PointCheckerInRectangle.cs:31-35 | a rectangle with min above max on an axis contains no point |
| PointCheckers.DegenerateRectangle | Assets/Scripts/DataStructures/PointCheckerInRectangle.cs:31-35 | a rectangle with min = max contains exactly the points over that spot |
| PointCheckers.CircleContainsCentre | Assets/Scripts/DataStructures/PointCheckerInCircle.cs:32-35 | the centre is inside the circle for every radius, zero and negative included |
| PointCheckers.CircleRadiusSignIrrelevant | Assets/Scripts/DataStructures/PointCheckerInCircle.cs:32-35 | the radius is squared, so r and -r accept the same points |
| PointCheckers.CircleWithinBox | Assets/Scripts/DataStructures/KDTree.cs:431-440 | the square centre ± \|r\| contains every point of the circle, so it is a sound search box |
| PointCheckers.RectangleWithinItself | Assets/Scripts/DataStructures/KDTree.cs:416-423 | a rectangle checker accepts nothing outside its own bounds, so the region search may use them as its box |
| UnitParams.ValidateValues | Assets/Scripts/Units/UnitDatas/UnitParameters.cs:93-101 | the result is in range; each field already in range is kept, an armour above 1 becomes 1 and a low health becomes the minimum |
| UnitParams.ValidateIdempotent | Assets/Scripts/Units/UnitDatas/UnitParameters.cs:93-101 | validating twice is validating once |
| UnitParams.NewParameters | Assets/Scripts/Units/UnitDatas/UnitParameters.cs:73-83 | the constructor always yields valid parameters and keeps values that are already valid |
| UnitParams.Plus | Assets/Scripts/Units/UnitDatas/UnitParameters.cs:109-119 | the sum of two parameter sets is always valid |
| UnitParams.PlusOfValid | Assets/Scripts/Units/UnitDatas/UnitParameters.cs:109-119 | two valid sets add field by field, with the armour capped at 1 |
| UnitParams.PlusCommutes | Assets/Scripts/Units/UnitDatas/UnitParameters.cs:109-119 | `+` is commutative |
| UnitParams.MultiplySpeed | Assets/Scripts/Units/UnitDatas/UnitParameters.cs:127-137 | the scaled set is always valid |
| UnitParams.MultiplySpeedOfValid | Assets/Scripts/Units/UnitDatas/UnitParameters.cs:127-137 | on a valid set only the two speeds change: scaled by a non-negative multiplier, set to 0 by a negative one |
| UnitParams.Sum | Assets/Scripts/Extensions/ExUnitParameters.cs:17-20 | an empty sequence throws InvalidOperation, one element comes back unchanged, and longer sums are valid |
| UnitParams.SumSnoc | Assets/Scripts/Extensions/ExUnitParameters.cs:17-20 | appending one set adds it to the running sum (a left fold) |
| UnitParams.SumOfValid | Assets/Scripts/Extensions/ExUnitParameters.cs:17-20 | a sum of valid sets is valid and its maximum health is the total of theirs |
| UnitParams.ParametersOf | Assets/Scripts/Units/UnitDatas/UnitParametersModifiedSpeed.cs:34 | what a speed decorator reports is valid, recomputed from the base on each read |
| UnitParams.NewModifiedSpeed | Assets/Scripts/Units/UnitDatas/UnitParametersModifiedSpeed.cs:21-28 | a null wrapped provider or unit throws NullReference, then a negative multiplier throws ArgumentOutOfRange; otherwise the decorator is made |
| UnitParams.ModifiedSpeedReportsScaledBase | Assets/Scripts/Units/UnitDatas/UnitParametersModifiedSpeed.cs:34 | a decorator over a valid base reports it with both speeds scaled and every other field unchanged |
| UnitParams.DecoratorsKeepOtherFields | Assets/Scripts/Units/UnitDatas/UnitParametersModifiedSpeed.cs:34 | any stack of decorators changes only the two speeds and keeps the result valid |
| LevelTables.Take | Assets/Scripts/Buildings/ShopSettings.cs:55-63 | `Take(n)` is the prefix of length n clamped to [0, length] |
| LevelTables.ValidateUpgrade | Assets/Scripts/Units/UnitDatas/UnitUpgradeData.cs:32-36 | the price becomes non-negative and the parameters valid; valid data is kept |
| LevelTables.ValidateShopData | Assets/Scripts/Buildings/ShopData.cs:28-32 | the entry becomes valid (price, parameters, non-negative speed-up); valid data is kept |
| LevelTables.ValidateHeroUpgrade | Assets/Scripts/Units/UnitDatas/HeroUpgradeData.cs:27-31 | the entry becomes valid (price, parameters, non-negative mana increase); valid data is kept |
| LevelTables.ValidateShopSettings | Assets/Scripts/Buildings/ShopSettings.cs:40-48 | the settings become valid with the same number of levels and the same minion parameters; valid settings are kept |
| LevelTables.GetUpgradeCost | Assets/Scripts/Buildings/ShopSettings.cs:70-79 | a level below 1 throws ArgumentOutOfRange; a level within the table costs its entry's price; beyond it long.MaxValue |
| LevelTables.ParametersAtLevel | Assets/Scripts/Buildings/ShopSettings.cs:55-63 | level 1 or below is the base; above it the sum throws InvalidOperation exactly when there are no upgrades, otherwise it is valid |
| LevelTables.ShopUnitParameters | Assets/Scripts/Buildings/ShopSettings.cs:55-63 | the minion parameters at level 1; above it InvalidOperation for an empty table, else valid parameters |
| LevelTables.ParametersSaturate | Assets/Scripts/Buildings/ShopSettings.cs:55-63 | every level past the last entry gets the parameters of the level just past it |
| LevelTables.ParametersHealthStep | Assets/Scripts/Units/UnitDatas/HeroData.cs:58-66 | with valid entries, going up one level adds exactly that level's entry's health |
| LevelTables.HeroUnitParameters | Assets/Scripts/Units/UnitDatas/HeroData.cs:58-66 | the hero's base parameters at level 1; above it InvalidOperation without upgrades, else valid parameters |
| LevelTables.GetCreationSpeed | Assets/Scripts/Buildings/ShopSettings.cs:86-94 | at level 1 or below the base creation speed |
| LevelTables.CreationSpeedMonotone | Assets/Scripts/Buildings/ShopSettings.cs:86-94 | after validation the creation speed is at least its positive minimum and never decreases with the level |
| LevelTables.ValidateHeroData | Assets/Scripts/Units/UnitDatas/HeroData.cs:35-41 | hero data becomes valid with the same number of upgrades; valid data is kept |
| LevelTables.NeededExpForNextLevel | Assets/Scripts/Units/UnitDatas/HeroData.cs:48-51 | a level below 1 throws ArgumentOutOfRange; within the list the entry's price; past it long.MaxValue |
| LevelTables.ManaPointsMaxAt | Assets/Scripts/Units/UnitDatas/HeroData.cs:73-81 | at level 1 or below the base mana maximum |
| LevelTables.ManaPointsMaxMonotone | Assets/Scripts/Units/UnitDatas/HeroData.cs:73-81 | with valid data the mana maximum is non-negative and never decreases with the level |
| Strategies.Decide | Assets/Scripts/Units/UnitTargetHandleStrategies/UnitTargetHandleStrategy.cs:29-45 | the four outcomes, each as an if-and-only-if: nothing for a missing target, walk when not close, reset when close but not checked, handle when close and checked |
| Strategies.FarTargetNotChecked | Assets/Scripts/Units/UnitTargetHandleStrategies/UnitTargetHandleStrategy.cs:29-45 | the check of a target that is not close cannot change the decision |
| Strategies.ArrivingAtGroundResets | Assets/Scripts/Units/UnitTargetHandleStrategies/TargetHandleStrategyAttack.cs:26-44 | the attack strategy walks to a point or area and drops it once within 0.1 |
| Strategies.AttackOnlyOpponents | Assets/Scripts/Units/UnitTargetHandleStrategies/TargetHandleStrategyAttack.cs:41-44 | a target the attack strategy passes is alive and accepts the attacker's team |
| Strategies.AttackIsClose | Assets/Scripts/Units/UnitTargetHandleStrategies/TargetHandleStrategyAttack.cs:26-32 | close within the attack range for an attackable target and within 0.1 for a point or area |
| Strategies.AttackIsChecked | Assets/Scripts/Units/UnitTargetHandleStrategies/TargetHandleStrategyAttack.cs:41-44 | a point or area is never checked; a checked target is alive and accepts the attacker's team |
| Strategies.SkillIsClose | Assets/Scripts/Units/UnitTargetHandleStrategies/TargetHandleStrategyUseSkill.cs:36-42 | a target at the caster is close for any non-negative usable distance; nothing is close for a negative one |
| Strategies.SkillIsChecked | Assets/Scripts/Units/UnitTargetHandleStrategies/TargetHandleStrategyUseSkill.cs:51-54 | a checked target is one the skill accepts, for a caster that can use the skill now |
| Strategies.NewStrategy | Assets/Scripts/Units/UnitTargetHandleStrategies/TargetHandleStrategyUseSkill.cs:23-27 | a null unit or a null skill throws ArgumentNull; a skill strategy for a unit without skills throws Argument; otherwise it is made |
| Combat.TeamOf | Assets/Scripts/Units/UnitFriendly.cs:27 | enemy units play for Enemies, minions and heroes for Friends |
| Combat.AttackOnlyAcrossTeams | Assets/Scripts/Units/UnitFriendly.cs:42 | one unit may attack another exactly when their teams differ; no unit accepts its own team |
| Combat.DamageReducedByArmor | Assets/Scripts/Units/Unit.cs:584-594 | the damage taken is at least 1; with no armour it is the truncated damage; full armour lets only 1 through; armour never raises it |
| Combat.MoreArmorLessDamage | Assets/Scripts/Units/Unit.cs:584-594 | more armour never lets more damage through |
| Combat.Healed | Assets/Scripts/Units/Unit.cs:322-334 | the healed health never exceeds the maximum, is the maximum or health plus the truncated heal, and a non-negative heal never lowers it |
| Combat.ClampMana | Assets/Scripts/Units/Hero.cs:108-112 | the mana setter keeps values in [0, max], clamping below to 0 and above to max |
| Combat.ClampManaIdempotent | Assets/Scripts/Units/Hero.cs:108-112 | setting the mana to its own value changes nothing |
| Combat.Recharged | Assets/Scripts/Units/Unit.cs:537-541 | a ready recharge stays, and a recharge never decreases for non-negative speed and time |
| Combat.RechargeLinear | Assets/Scripts/Units/Unit.cs:537-541 | until ready, n frames from a fresh shot recharge to n times attack speed times frame time |
| Combat.NextTarget | Assets/Scripts/Units/UnitFriendly.cs:73-90 | a minion or hero keeps an assigned target that still exists; a minion else takes the nearest opponent or the fountain; an enemy the nearest opponent or the throne; a hero the nearest opponent within 20 or nothing |
| Combat.OnlyHeroesIdle | Assets/Scripts/Units/Hero.cs:397-405 | only a hero can be left without a target |
| Combat.FallbackBuildings | Assets/Scripts/Units/UnitEnemy.cs:46-49 | with nobody in sight a minion heads for the fountain, an enemy for the throne and a hero nowhere |
| Combat.ExpStep | Assets/Scripts/Units/Hero.cs:535-544 | gaining experience fails exactly for a level below 1 |
| Combat.AtMostOneLevelPerGain | Assets/Scripts/Units/Hero.cs:535-544 | one gain raises the level by at most one, and the experience left plus what was paid equals what there was |
| Combat.ExpStaysNonNegative | Assets/Scripts/Units/Hero.cs:535-544 | with valid data the experience left after a gain is never negative |
| Combat.RebornDelay | Assets/Scripts/Units/Hero.cs:90 | a hero of level 1 or more waits at least ten seconds |
| Combat.RebornDelayGrows | Assets/Scripts/Units/Hero.cs:90 | each level adds ten seconds to the wait |
| Combat.ButtonFor | Assets/Scripts/Units/Hero.cs:414-426 | a skill button is active exactly while the hero has the mana for the skill |
| Combat.ButtonsAsWritten | Assets/Scripts/Units/Hero.cs:171-176 | the list as written: button i flashes when the activated index is i + 1 |
| Combat.Buttons | Assets/Scripts/Units/Hero.cs:171-176 | the corrected list: one button per skill, button i flashes when skill i is activated |
| Combat.ActivatedButtonNotFlashingAsWritten | Assets/Scripts/Units/Hero.cs:171-176 | in the list as written the activated skill's own button never flashes; the one before it does |
| Combat.FirstSkillActivatedFlashesNothing | Assets/Scripts/Units/Hero.cs:171-176 | concrete case: two skills, the first activated, no button flashes as written, while the corrected list flashes the first |
| Combat.ButtonsFlashActivated | Assets/Scripts/Units/Hero.cs:578-582 | the corrected list flashes exactly the activated button, agrees with the single-button notification, and flashes nothing when no skill is activated |
| Combat.LevelUpButtons | Assets/Scripts/Units/Hero.cs:182-198 | no level-up buttons without a skill point; otherwise one per skill that can level up, numbered from 0 |
| KDTreeSpec.Descend | Assets/Scripts/DataStructures/KDTree.cs:317-336 | the walk from a node ends at a node of its subtree with no child on the query's side |
| KDTreeSpec.ParentFor | Assets/Scripts/DataStructures/KDTree.cs:317-336 | there is no parent exactly when the tree is empty; otherwise the parent is in the tree and has a free slot on the new item's side |
| KDTreeSpec.Insert | Assets/Scripts/DataStructures/KDTree.cs:282-310 | adding a node grows the tree by one and appends the item to the enumeration order |
| KDTreeSpec.InsertAll | Assets/Scripts/DataStructures/KDTree.cs:82-86 | adding a range appends its items, in order, to the enumeration order |
| KDTreeSpec.FirstMatch | Assets/Scripts/DataStructures/KDTree.cs:107-120 | the first index whose item matches, or -1 exactly when none does |
| KDTreeProofs.InsertWellFormed | Assets/Scripts/DataStructures/KDTree.cs:282-310 | adding a node keeps a binary tree rooted at the first node, with depths as levels and the Next thread in insertion order |
| KDTreeProofs.InsertOrdered | Assets/Scripts/DataStructures/KDTree.cs:282-310 | adding a node keeps the k-d ordering: every node lies on the side of each ancestor that its split coordinate selects |
| KDTreeProofs.InsertAllValid | Assets/Scripts/DataStructures/KDTree.cs:82-86 | adding items one by one keeps both shape and ordering |
| KDTreeProofs.BuildValid | Assets/Scripts/DataStructures/KDTree.cs:203-221 | a tree rebuilt from a list is well formed, ordered under the current positions and enumerates exactly that list |
| KDTreeProofs.RebuildIdempotent | Assets/Scripts/DataStructures/KDTree.cs:203-221 | rebuilding a freshly built tree with unchanged positions gives the same tree |
| KDTreeProofs.BuildSnoc | Assets/Scripts/DataStructures/KDTree.cs:76 | adding one item to a built tree is building from the longer list |
| KDTreeProofs.CountIsFilterLength | Assets/Scripts/DataStructures/KDTree.cs:169-172 | the count of matching items is the length of the list of matching items |
| KDTreeProofs.FilterPartition | Assets/Scripts/DataStructures/KDTree.cs:147-162 | the items removed and the items kept by a predicate together number all items |
| KDTreeProofs.FilterMembers | Assets/Scripts/DataStructures/KDTree.cs:92-101 | the filtered items are exactly the items that satisfy the predicate |
| KDTreeSearch.FarSideBound | Assets/Scripts/DataStructures/KDTree.cs:343-394 | in an ordered tree, every node on the far side of a split is at least the squared split gap away, which justifies the pruning |
| KDTreeSearch.ReachComplete | Assets/Scripts/DataStructures/KDTree.cs:450-480 | the range search's pruning never skips a node that lies inside the box |
| KDTreeSearch.ReachCompleteFor | Assets/Scripts/DataStructures/KDTree.cs:450-480 | the same for any checker whose area lies inside the box |
| KDTrees.KDTree.FindParent | Assets/Scripts/DataStructures/KDTree.cs:317-336 | the loop finds the parent the specification's walk defines |
| KDTrees.KDTree.AddNode | Assets/Scripts/DataStructures/KDTree.cs:282-310 | the nodes become the specification's insertion of the item, and the tree stays valid |
| KDTrees.KDTree.Add | Assets/Scripts/DataStructures/KDTree.cs:76 | the same as AddNode |
| KDTrees.KDTree.AddRange | Assets/Scripts/DataStructures/KDTree.cs:82-86 | the nodes become the insertion of every item in order |
| KDTrees.KDTree.ClearTree | Assets/Scripts/DataStructures/KDTree.cs:177-182 | the tree becomes empty |
| KDTrees.KDTree.ToList | Assets/Scripts/DataStructures/KDTree.cs:227-256 | the enumerator yields the items in insertion order |
| KDTrees.KDTree.Get | Assets/Scripts/DataStructures/KDTree.cs:58-68 | an index at or past Count throws ArgumentOutOfRange; a valid one gives that item; a negative one gives the root's item, or NullReference on an empty tree |
| KDTrees.KDTree.Find | Assets/Scripts/DataStructures/KDTree.cs:107-120 | the first matching item in enumeration order, or null when none matches |
| KDTrees.KDTree.FindAll | Assets/Scripts/DataStructures/KDTree.cs:92-101 | a new tree built from the matching items in enumeration order |
| KDTrees.KDTree.CountAll | Assets/Scripts/DataStructures/KDTree.cs:169-172 | the number of matching items |
| KDTrees.KDTree.UpdatePositions | Assets/Scripts/DataStructures/KDTree.cs:203-221 | the tree is rebuilt from its items under the current positions and is ordered under them |
| KDTrees.KDTree.Update | Assets/Scripts/DataStructures/KDTree.cs:188-198 | a non-positive rate throws; a rebuild happens only when 1/rate seconds have passed since the last one, and then records the time |
| KDTrees.KDTree.RemoveAt | Assets/Scripts/DataStructures/KDTree.cs:126-141 | an index outside [0, Count) throws and changes nothing; otherwise that item is removed and the tree rebuilt from the rest |
| KDTrees.KDTree.RemoveAll | Assets/Scripts/DataStructures/KDTree.cs:147-162 | the items left are exactly those not matching, in order, and the tree is rebuilt from them |
| KDTrees.KDTree.FindClosest | Assets/Scripts/DataStructures/KDTree.cs:343-394 | null for an empty tree; a result is an item of the tree; in an ordered tree it is no farther than any other item, and null only when every item is at float.MaxValue or beyond |
| KDTrees.KDTree.RangeSearch | Assets/Scripts/DataStructures/KDTree.cs:450-480 | every output item is a distinct node the checker accepts, and every accepted node the box pruning reaches is output |
| KDTrees.KDTree.GetByRegion | Assets/Scripts/DataStructures/KDTree.cs:416-423 | exactly the items in the rectangle, edges included, each once (completeness needs the tree to be ordered under the positions) |
| KDTrees.KDTree.GetByCircleArea | Assets/Scripts/DataStructures/KDTree.cs:431-440 | as written: only items in the circle, each once; complete for a non-negative radius |
| KDTrees.KDTree.GetByCircleAreaCorrected | Assets/Scripts/DataStructures/KDTree.cs:431-440 | with the box spanned by the radius's absolute value: exactly the items in the circle, for every radius |
| KDTrees.NegativeRadiusMissesItem | Assets/Scripts/DataStructures/KDTree.cs:431-440 | concrete case: a point inside a circle of radius -1 is not reached by the search as written |
| Keepers.UnitsKeeper.TreeOf | Assets/Scripts/UnitsKeeper.cs:97-101 | the dictionary holds a tree for Enemies and one for Friends and nothing for any other team |
| Keepers.UnitsKeeper.constructor | Assets/Scripts/UnitsKeeper.cs:25-29 | the keeper starts with an empty tree per playing team and no subscriptions |
| Keepers.UnitsKeeper.OnUnitCreated | Assets/Scripts/UnitsKeeper.cs:108-116 | a null unit throws ArgumentNull and changes nothing; otherwise the unit is appended to its own team's tree only, and its death is subscribed to |
| Keepers.UnitsKeeper.OnUnitDie | Assets/Scripts/UnitsKeeper.cs:123-132 | a null argument throws; otherwise one death subscription is dropped and every entry of that unit leaves its team's tree, the other tree untouched |
| Keepers.UnitsKeeper.GetUnitsByRegion | Assets/Scripts/UnitsKeeper.cs:64-67 | only the team's units inside the rectangle, and all of them while the tree is ordered under the current positions; none for a team without a tree |
| Keepers.UnitsKeeper.GetUnitsByCircleArea | Assets/Scripts/UnitsKeeper.cs:76-79 | only the team's units inside the circle, and all of them while the tree is ordered and the radius is non-negative (the box runs from centre - radius to centre + radius); none for a team without a tree |
| Keepers.UnitsKeeper.FindClosestUnit | Assets/Scripts/UnitsKeeper.cs:87-90 | null for an empty or missing tree; a result belongs to the team and is no farther than any other member while the tree is ordered |
| Keepers.UnitsKeeper.Update | Assets/Scripts/UnitsKeeper.cs:43-46 | each tree is rebuilt under the current positions exactly when half a second has passed since its last rebuild |
| Keepers.RegionItems | Assets/Scripts/UnitsKeeper.cs:64-79 | a range search's output read back as units is sound, and complete while the tree is ordered when the search box covers the area |
| Keepers.DeathRemovesExactlyThatUnit | Assets/Scripts/UnitsKeeper.cs:123-132 | a death removes that unit and keeps every other |
| Keepers.TargetsProvider.GetUnitTargetFor | Assets/Scripts/TargetsProvider.cs:24-31 | a null or missing member throws NullReference; otherwise a unit of the opposing team, null only when it has none, and the nearest one while its tree is ordered |
| Keepers.TargetsProvider.GetUnitTargetsAtAreaFor | Assets/Scripts/TargetsProvider.cs:39-43 | only the opposing team's units inside the area's circle, and all of them while the tree is ordered for the non-negative radius every accepted area has |
| Timers.AfterTick | Assets/Scripts/TimerCountdown.cs:93-104 | a positive countdown drops by one second; otherwise it is 0 |
| Timers.TickEvents | Assets/Scripts/TimerCountdown.cs:93-104 | one callback reports a tick with the current value exactly while it is positive, otherwise the finish |
| Timers.CountdownFromWhole | Assets/Scripts/TimerCountdown.cs:93-104 | from a whole n the ticks report n, n-1, …, 1 and are followed by exactly one finish |
| Timers.NoEarlyFinish | Assets/Scripts/TimerCountdown.cs:93-104 | before the countdown runs out the callbacks are ticks only |
| Timers.TimerCountdown.constructor | Assets/Scripts/TimerCountdown.cs:46-56 | the value is stored, and the callbacks start at once exactly when it is positive, with a period of at most one second |
| Timers.TimerCountdown.Create | Assets/Scripts/TimerCountdown.cs:46-56 | a null countdowned object throws ArgumentNull; otherwise a fresh timer as the constructor makes it |
| Timers.TimerCountdown.StartCountdown | Assets/Scripts/TimerCountdown.cs:68-76 | a negative value throws and changes nothing; otherwise the countdown is set and scheduled |
| Timers.TimerCountdown.StopCountdown | Assets/Scripts/TimerCountdown.cs:81-86 | the countdown becomes 0, unscheduled, and one finish is reported |
| Timers.TimerCountdown.CountdownTick | Assets/Scripts/TimerCountdown.cs:93-104 | the new countdown and the reported events are those of one callback; a finish unschedules the timer |
| Skills.DistanceUsing | Assets/Scripts/Skills/SkillGeneric.cs:58 | an ice bolt is usable within its using radius, a meteor from anywhere (float.MaxValue) |
| Skills.ValidateParameters | Assets/Scripts/Skills/SkillParametersIceBolt.cs:51-60 | as written: each parameter class raises only its own two fields to 0 (ice bolt: using radius and arrow speed; meteor: blast radius and damage), keeps the kind, and leaves the mana cost and cooldown as entered |
| Skills.NegativeCostAndCooldownSurvive | Assets/Scripts/Skills/SkillParametersMeteor.cs:48-55 | as written: an ice bolt or meteor record with mana cost -5 and cooldown -1 passes validation unchanged |
| Skills.ValidateBase | Assets/Scripts/Skills/SkillParameters.cs:39-43 | the base class's clamps: the mana cost and cooldown are raised to 0 and the class's own fields untouched |
| Skills.ValidateParametersCorrected | Assets/Scripts/Skills/SkillParameters.cs:39-43 | corrected (base call included): every bounded field is non-negative, records already in bounds are kept, and the own fields agree with the overrides |
| Skills.ValidationIdempotent | Assets/Scripts/Skills/SkillParametersIceBolt.cs:51-60 | validating twice is validating once, as written and corrected |
| Skills.SkillTargeting.SetupUsingRadius | Assets/Scripts/Skills/SkillTargetingUnit.cs:47-53 | a negative radius throws ArgumentOutOfRange and keeps the old one; otherwise it is stored |
| Skills.SkillTargeting.SetupAreaRadius | Assets/Scripts/Skills/SkillTargetingArea.cs:32 | the radius is stored unchecked |
| Skills.ExistUpgradeRange | Assets/Scripts/Skills/SkillDataGeneric.cs:42-45 | an upgrade entry exists exactly for levels 2 up to the list's length plus one |
| Skills.GetParameters | Assets/Scripts/Skills/SkillDataGeneric.cs:94-97 | the level's upgrade entry when it exists, the base parameters otherwise |
| Skills.FallbackToBase | Assets/Scripts/Skills/SkillDataGeneric.cs:94-97 | levels below 2 and past the last upgrade both use the base parameters |
| Skills.ParametersOfLevel | Assets/Scripts/Skills/SkillDataGeneric.cs:94-97 | any level's parameters are the base or one of the upgrades, and keep the data's kind and, for data assumed non-negative, its bounds |
| Skills.LevelValuesNonNegative | Assets/Scripts/Skills/SkillDataGeneric.cs:60-74 | for data assumed non-negative (which no code enforces), the mana cost, cooldown and using distance of every level are non-negative |
| Skills.GetConfiguredTargetingMode | Assets/Scripts/Skills/SkillDataGeneric.cs:81-87 | the shared targeting object comes back configured: an ice bolt sets the using radius (a negative one throws and changes nothing), a meteor the area radius |
| Skills.TargetKindsDisjoint | Assets/Scripts/Skills/SkillDataIceBolt.cs:67-71 | an ice bolt accepts only attackable targets, a meteor only areas, and no target suits both |
| Skills.LaunchIceBolt | Assets/Scripts/Skills/SkillDataIceBolt.cs:33-48 | a null owner, target or pool throws ArgumentNull; otherwise the arrow is launched with the level's prefab, speed and freeze effect |
| Skills.CreateMeteorShower | Assets/Scripts/Skills/SkillDataMeteor.cs:36-54 | a null owner, provider, target or pool throws ArgumentNull; otherwise the shower uses the level's prefab and damage |
| Skills.Skill.constructor | Assets/Scripts/Skills/SkillGeneric.cs:95-102 | a new skill is at level 1 with its timer stopped |
| Skills.Skill.Create | Assets/Scripts/Skills/SkillGeneric.cs:95-102 | null skill data throws ArgumentNull; otherwise a fresh skill at level 1 without cooldown |
| Skills.Skill.CanLevelUp | Assets/Scripts/Skills/SkillGeneric.cs:72 | a skill can level up exactly when it has an upgrade list and its level is from 1 to the list's length |
| Skills.Skill.IsCooldownStarted | Assets/Scripts/Skills/SkillGeneric.cs:88 | the cooldown runs exactly while the timer's countdown is positive |
| Skills.Skill.IsTargetCorrect | Assets/Scripts/Skills/SkillGeneric.cs:121-124 | a meteor accepts exactly area targets; an ice bolt accepts only a live attackable target of the caster's opponents, for a present caster |
| Skills.Skill.LevelUp | Assets/Scripts/Skills/SkillGeneric.cs:138-143 | one level more, and a running cooldown is stopped with one finish |
| Skills.Skill.StartRecharging | Assets/Scripts/Skills/SkillGeneric.cs:155-159 | the timer counts down the current level's cooldown; a negative one throws and leaves the timer alone |
| Skills.Skill.UseSkill | Assets/Scripts/Skills/SkillIceBolt.cs:24-28 | the cast at the current level, then the cooldown starts; a meteor aimed at anything but an area throws Argument first and changes nothing |
| Squads.Members | Assets/Scripts/Units/UnitSquad.cs:74-86 | the HashSet holds each unit once |
| Squads.MembersAreTheNamedUnits | Assets/Scripts/Units/UnitSquad.cs:74-86 | the squad holds exactly the non-null units of the source, and each is subscribed to |
| Squads.CollectMembers | Assets/Scripts/Units/UnitSquad.cs:74-86 | the loop fills the set and makes one subscription per non-null entry |
| Squads.DistinctSourceSubscribesOnce | Assets/Scripts/Units/UnitSquad.cs:74-86 | a source listing each unit once gives one subscription per member |
| Squads.Without | Assets/Scripts/Units/UnitSquad.cs:185-205 | removing a unit keeps every other member, shrinks the set by one when it was there and keeps it otherwise |
| Squads.SelectAll | Assets/Scripts/Units/UnitSquad.cs:166-169 | one selection call per member, in order |
| Squads.HealthWithinMax | Assets/Scripts/Units/UnitSquad.cs:141-160 | the squad's health never exceeds its maximum when no member's does |
| Squads.HealthNonNegative | Assets/Scripts/Units/UnitSquad.cs:141-160 | the squad's health is non-negative when every member's is |
| Squads.SquadArgsAccepted | Assets/Scripts/Units/UnitSquad.cs:141-160 | with every member's health in [0, max] the squad's health event is one the constructor accepts |
| Squads.UnitSquad.ControllableUnits | Assets/Scripts/Units/UnitSquad.cs:67 | the members, each once |
| Squads.UnitSquad.Create | Assets/Scripts/Units/UnitSquad.cs:74-86 | a null source throws ArgumentNull; otherwise the squad holds each named unit once and subscribes once per non-null entry, so a unit listed twice is subscribed twice |
| Squads.UnitSquad.GetChangedHealthArgs | Assets/Scripts/Units/UnitSquad.cs:141-160 | the summed health and the fullness against the summed maximum, through the validating constructor |
| Squads.UnitSquad.OnUnitHealthChanges | Assets/Scripts/Units/UnitSquad.cs:175-179 | the recomputed health is raised |
| Squads.UnitSquad.OnUnitDie | Assets/Scripts/Units/UnitSquad.cs:185-205 | the dead unit leaves the squad and loses one subscription of each kind; the squad raises its new health while members remain, and StopShowing then Die when none do |
| Squads.UnitSquad.SetSelected | Assets/Scripts/Units/UnitSquad.cs:166-169 | as written: every member is told to be selected, whatever the argument |
| Squads.UnitSquad.SetSelectedCorrected | Assets/Scripts/Units/UnitSquad.cs:166-169 | corrected: every member is told the argument, in order |
| Squads.DeselectingSquadSelects | Assets/Scripts/Units/UnitSquad.cs:166-169 | as written, SetSelected(false) tells a member it is selected, where the corrected call deselects it |
| Squads.UnitSquad.Dispose | Assets/Scripts/Units/UnitSquad.cs:91-98 | one death and one health subscription dropped per member, and every member deselected |
| Squads.DisposeDropsAllSubscriptions | Assets/Scripts/Units/UnitSquad.cs:91-98 | a squad built from a source listing each unit once has no subscription left after Dispose |
| Squads.DuplicateKeepsSubscription | Assets/Scripts/Units/UnitSquad.cs:91-98 | concrete case: a unit listed twice keeps one subscription after Dispose |
| Buildings.ValidHealPointsMax | Assets/Scripts/Buildings/Throne.cs:77-80 | the maximum is at least the minimum, and a configured value already at least that is kept |
| Buildings.Throne.constructor | Assets/Scripts/Buildings/Throne.cs:77-85 | the clamped maximum, full health, listeners attached, alive |
| Buildings.Throne.ApplyDamage | Assets/Scripts/Buildings/Throne.cs:121-138 | negative damage throws and changes nothing; otherwise health drops by the truncated damage, Die runs when it reaches 0, a standing throne reports its health, and StopShowing is heard only once |
| Buildings.Throne.Die | Assets/Scripts/Buildings/Throne.cs:143-148 | StopShowing goes out to listeners still attached, and then they are detached |
| Economy.WrapLong | Assets/Scripts/PlayerResources.cs:58-63 | unchecked long arithmetic: the result fits a long, equals the exact value when that fits, and differs from it by a multiple of 2^64 |
| Economy.AbsLong | Assets/Scripts/PlayerResources.cs:58-63 | `Math.Abs` on a long throws Overflow exactly for long.MinValue; otherwise a non-negative long equal to x or -x |
| Economy.GoldAfterAdd | Assets/Scripts/PlayerResources.cs:58-63 | the gold stays a long and, without overflow, grows by exactly the magnitude of the amount |
| Economy.GoldAfterSpend | Assets/Scripts/PlayerResources.cs:72-83 | the gold stays a long and a non-negative price is taken off exactly, leaving it in [0, gold] |
| Economy.GoldStaysNonNegative | Assets/Scripts/PlayerResources.cs:58-83 | without overflow, gold that starts non-negative stays so through either operation |
| Economy.NegativeSpendIsAdd | Assets/Scripts/PlayerResources.cs:74-77 | spending a negative amount always succeeds and adds its magnitude |
| Economy.SpendThenAddRestores | Assets/Scripts/PlayerResources.cs:58-83 | adding back what was spent restores the gold |
| Economy.PlayerResources.constructor | Assets/Scripts/PlayerResources.cs:14-16 | the starting gold is the default and there is no source hero |
| Economy.PlayerResources.AddGold | Assets/Scripts/PlayerResources.cs:58-63 | long.MinValue throws Overflow and changes nothing; otherwise the gold becomes GoldAfterAdd and the change is announced with old and new gold |
| Economy.PlayerResources.TrySpendGold | Assets/Scripts/PlayerResources.cs:72-83 | succeeds exactly when there is enough gold; a failure changes nothing; a success takes the price off and is announced |
| Economy.PlayerResources.SetSourceHero | Assets/Scripts/PlayerResources.cs:90-102 | a null or destroyed hero throws ArgumentNull and changes nothing; otherwise the subscription moves to the new hero, whose data and arrival are announced |
| Economy.PlayerResources.GetHeroResourceData | Assets/Scripts/PlayerResources.cs:109-115 | throws NullReference exactly when there is no source hero or it is destroyed; otherwise that hero's data |
| Economy.SourceHeroDataRoundTrip | Assets/Scripts/PlayerResources.cs:90-115 | once a hero is set, the resources report exactly its data while it exists |
| Economy.ClampLevel | Assets/Scripts/Buildings/Shop.cs:146-152 | the level is at least the minimum and, with settings, at most one past their last entry; levels in range are kept |
| Economy.ButtonsAsWritten | Assets/Scripts/Buildings/Shop.cs:115-129 | as written: one button exactly below the last entry's level, priced at the level's cost and active exactly when affordable |
| Economy.Buttons | Assets/Scripts/Buildings/Shop.cs:115-129 | corrected: one button at every level that has an entry, priced and activated the same way |
| Economy.LastUpgradeNeverOffered | Assets/Scripts/Buildings/Shop.cs:115-129 | as written, no button appears at the last entry's level although that entry has a price and the level after it is admissible |
| Economy.EveryUpgradeOffered | Assets/Scripts/Buildings/Shop.cs:115-129 | the corrected list offers every entry's price at its level and agrees with the one as written below the last level |
| Economy.RefreshExactlyWhenButtonFlips | Assets/Scripts/Buildings/Shop.cs:239-246 | the buttons are resent exactly when the button's active state differs between the old and new gold |
| Economy.RefreshWhenButtonFlipsAsWritten | Assets/Scripts/Buildings/Shop.cs:239-246 | as written, below the last entry's level a resend happens exactly when the button flips; at that level the resent list is empty before and after |
| Economy.Shop.UpgradeCost | Assets/Scripts/Buildings/ShopSettings.cs:70-79 | the current level's price from the settings, long.MaxValue once every entry is bought |
| Economy.Shop.constructor | Assets/Scripts/Buildings/Shop.cs:85-92 | the configured level, clamped, with no event yet |
| Economy.Shop.GetButtons | Assets/Scripts/Buildings/Shop.cs:115-129 | as written: one button exactly below the last entry's level, priced at the current cost and active exactly when the player can pay |
| Economy.Shop.OnGoldChange | Assets/Scripts/Buildings/Shop.cs:239-246 | the buttons, as GetButtons writes them, are resent exactly when the gold change crosses the current price |
| Economy.Shop.LevelUp | Assets/Scripts/Buildings/Shop.cs:225-232 | one level more, clamped, then the new data and the buttons as GetButtons writes them are sent |
| Economy.Shop.OnUpgradeClick | Assets/Scripts/Buildings/Shop.cs:213-220 | the level rises exactly when the current price is paid, and the as-written buttons are resent at the old level when the payment crosses the price and again after levelling; an unpaid click changes nothing |
| Economy.UpgradeBuysTheNextLevel | Assets/Scripts/Buildings/Shop.cs:213-232 | a paid upgrade below the last level costs exactly that level's entry and leads to the next level, whose parameters exist |
| Units.CircleAt | Assets/Scripts/Units/Unit.cs:573-577 | a present target gets exactly one highlight change; a null or missing one none |
| Units.NewTargetLog | Assets/Scripts/Units/Unit.cs:473-485 | the same target or an unselected unit moves no highlight; otherwise the old target is un-highlighted and the new one highlighted |
| Units.DiesOnce | Assets/Scripts/Units/Unit.cs:490-500 | Die's events announce OnDie exactly once, whatever the hero's cancelation adds |
| Units.TailDiesOnce | Assets/Scripts/Units/Unit.cs:490-500 | the finishing part of Die announces exactly one death |
| Units.ResetLogQuiet | Assets/Scripts/Units/Unit.cs:383-388 | resetting the target never announces a death |
| Units.CanLevelUpOf | Assets/Scripts/Units/Hero.cs:453 | exactly the hero's skills whose next level exists |
| Units.IndexOf | Assets/Scripts/Units/Hero.cs:578-582 | the first position of the skill, or -1 exactly when the hero lacks it |
| Units.CastOf | Assets/Scripts/Units/Hero.cs:252-269 | a hero's cast fails exactly for a missing target or a meteor aimed at anything but an area |
| Units.Unit.constructor | Assets/Scripts/Units/Unit.cs:189-195 | validated unit data, skill data assumed non-negative, full health, a ready attack, no target, the attack strategy, not selected; a hero at level 1 with full mana and no activated button |
| Units.Unit.SetParameters | Assets/Scripts/Units/Unit.cs:341-345 | a null provider throws ArgumentNull and keeps the old one; otherwise it is replaced |
| Units.Unit.UnpackDecorator | Assets/Scripts/Units/UnitDatas/UnitParametersModifiedSpeed.cs:44-50 | the wrapped provider is put back only while this decorator is the unit's current provider |
| Units.Unit.UpdateParametersPoints | Assets/Scripts/Units/Unit.cs:350 | health is restored to the current maximum |
| Units.Unit.SetNewTarget | Assets/Scripts/Units/Unit.cs:473-485 | the target becomes the new one and the highlight moves as NewTargetLog says |
| Units.Unit.ResetTarget | Assets/Scripts/Units/Unit.cs:383-388 | no target, the attack strategy back, a friendly unit forgets its assignment, and the old target is un-highlighted |
| Units.Unit.SetTargetManually | Assets/Scripts/Units/UnitFriendly.cs:48-52 | the new target is set and a friendly unit marks it as assigned |
| Units.Unit.SetSelected | Assets/Scripts/Units/Unit.cs:265-270 | the selection flag is stored, its circle shown or hidden, and the current target highlighted accordingly |
| Units.Unit.FindTarget | Assets/Scripts/Units/Unit.cs:546-555 | when the target is missing or the last search is half a second old, the search time is recorded and the target becomes what NextTarget picks; otherwise nothing changes |
| Units.Unit.Attack | Assets/Scripts/Units/Unit.cs:289-296 | a ready attack fires at the target and restarts the recharge from 0; an unready one changes nothing |
| Units.Unit.RechargeAttack | Assets/Scripts/Units/Unit.cs:537-541 | the recharge advances as Recharged says for the unit's attack speed |
| Units.Unit.CancelQuiet | Assets/Scripts/Units/Hero.cs:274-278 | cancelling skill selecting never announces a death |
| Units.Unit.CancelSelecting | Assets/Scripts/Units/Hero.cs:274-278 | no button stays activated, and the redraw and cancelation are announced |
| Units.Unit.Die | Assets/Scripts/Units/Unit.cs:490-500 | no target, the attack strategy, deselected, a hero's activated button cleared, and Die's events appended |
| Units.Unit.Expire | Assets/Scripts/Units/Unit.cs:490-500 | Die without the hero's cancelation: target reset, deselected, and the death announced |
| Units.Unit.DieLogDiesOnce | Assets/Scripts/Units/Unit.cs:490-500 | Die announces OnDie exactly once |
| Units.Unit.TakeDamage | Assets/Scripts/Units/Unit.cs:364-378 | negative damage throws ArgumentOutOfRange; a dead unit is left alone; otherwise the armour-reduced hit is applied, and OnDie is announced exactly when this hit ends the life |
| Units.Unit.Strike | Assets/Scripts/Units/Unit.cs:364-378 | on a live unit the armour-reduced hit is applied, Die runs when health reaches 0 and the health event follows |
| Units.Unit.ApplyDamage | Assets/Scripts/Units/UnitEnemy.cs:34-40 | as TakeDamage, and an enemy that is dead after the hit awards its experience to a live hero attacker, on every such hit |
| Units.Unit.ApplyHeal | Assets/Scripts/Units/Unit.cs:322-334 | a negative heal throws; a dead unit is left alone; otherwise health rises to at most the maximum and the health event is raised |
| Units.Unit.Reborn | Assets/Scripts/Units/Hero.cs:284-295 | the current level's parameters, or InvalidOperation with nothing changed; then full health, full mana, and the rebirth events |
| Units.Unit.LevelUp | Assets/Scripts/Units/Hero.cs:549-556 | one level and one skill point more; rebirth at the new level and both button lists redrawn as GetButtons and GetButtonsLevelUps write them, or InvalidOperation when that level has no parameters |
| Units.Unit.AddExp | Assets/Scripts/Units/Hero.cs:148-159 | a non-positive amount throws, a dead hero ignores it; otherwise the experience is added, at most one level is gained and paid for, and the new data is announced |
| Units.Unit.GainExp | Assets/Scripts/Units/Hero.cs:148-159 | the experience is added and, when it reaches the need, one level is paid for |
| Units.Unit.NotifyHeroData | Assets/Scripts/Units/Hero.cs:443-447 | the current level and experience are announced |
| Units.Unit.CheckForLevelUp | Assets/Scripts/Units/Hero.cs:535-544 | enough experience pays for exactly one level; otherwise nothing changes |
| Units.Unit.ApplyManaGain | Assets/Scripts/Units/Hero.cs:314-323 | a negative gain throws, a dead hero ignores it, otherwise mana rises within [old mana, maximum] |
| Units.Unit.UpdateSkillsButtons | Assets/Scripts/Units/Hero.cs:511-514 | the skill buttons as GetButtons writes them are sent |
| Units.Unit.GetButtons | Assets/Scripts/Units/Hero.cs:171-176 | as written: one button per skill, active when the hero has its mana, with button i flashing when the activated index is i + 1, so the activated skill's own button never flashes |
| Units.Unit.GetButtonsLevelUps | Assets/Scripts/Units/Hero.cs:182-198 | no button without a skill point; otherwise one button per skill that can level up, numbered 0, 1, ... in order |
| Units.Unit.HeroResourceData | Assets/Scripts/Units/Hero.cs:165 | the current level and experience, and the experience the next level needs: the level's entry price, long.MaxValue past the table, or ArgumentOutOfRange below level 1 |
| Units.Unit.SkillCanBeUsed | Assets/Scripts/Units/Hero.cs:304-307 | usable exactly when the skill's cooldown timer has run out and the hero has the mana its current level costs |
| Units.Unit.UseSkillOnTarget | Assets/Scripts/Units/Hero.cs:252-269 | a null skill or target throws ArgumentNull; a skill cooling down or too dear does nothing; otherwise the skill is cast, its cooldown started, its mana paid, selecting cancelled and the buttons redrawn, or the cast's error with nothing changed |
| Units.Unit.CastSkill | Assets/Scripts/Units/Hero.cs:252-269 | the usable skill is cast and paid for, or its error leaves everything as it was |
| Units.Unit.PayForCast | Assets/Scripts/Units/Hero.cs:252-269 | the mana cost is paid, selecting cancelled, and the cast and buttons announced |
| Units.Unit.SetTargetForUsingSkill | Assets/Scripts/Units/Hero.cs:225-240 | a null skill or target throws; selecting is cancelled; a usable skill makes the target the assigned one and installs the use-skill strategy |
| Units.Unit.OnSkillClick | Assets/Scripts/Units/Hero.cs:461-480 | an index outside the skills throws ArgumentOutOfRange; an unusable skill does nothing; a usable one activates its button, asks for a target and flashes the button |
| Units.Unit.OnSkillLevelUpClick | Assets/Scripts/Units/Hero.cs:487-497 | an index outside the levelable skills throws; otherwise exactly the chosen skill levels up, a skill point is spent and the level-up buttons are redrawn |
| Units.Unit.SpendSkillPoint | Assets/Scripts/Units/Hero.cs:487-497 | one skill point less and the level-up buttons redrawn |
| Units.Unit.OnSkillChanged | Assets/Scripts/Units/Hero.cs:578-582 | a skill the hero lacks throws ArgumentOutOfRange; otherwise its button is redrawn, flashing when it is activated, as the corrected list has it at its place |
| Units.Unit.SingleButtonMatchesList | Assets/Scripts/Units/Hero.cs:578-602 | the single redrawn button equals the one the corrected list shows at its place |
| Units.Unit.DoWork | Assets/Scripts/Units/Unit.cs:454-462 | a dead unit does nothing; a live one keeps its health, only appends to its event log, and records a new search time only when it searched |
| Units.Unit.HandleTarget | Assets/Scripts/Units/UnitTargetHandleStrategies/UnitTargetHandleStrategy.cs:29-45 | per Decide: nothing for a missing target; otherwise the unit turns to it; steps toward it when not close; drops it when not checked; attacks or casts when checked |
| Units.Unit.ApproachTarget | Assets/Scripts/Units/UnitTargetHandleStrategies/UnitTargetHandleStrategy.cs:36-44 | for a present target: a target not close is stepped toward with nothing else changed; one that fails the check is dropped and the attack strategy restored; a checked one is attacked when the recharge is full, or has the strategy's skill cast on it and is then dropped |
| Units.Unit.UseTarget | Assets/Scripts/Units/Unit.cs:467 | a null or missing target changes nothing; a present one makes the unit turn toward its position; the event log only grows |
| Units.Unit.HandleCheckedTarget | Assets/Scripts/Units/UnitTargetHandleStrategies/TargetHandleStrategyAttack.cs:50-53 | the attack strategy fires at a live opponent when ready; the skill strategy casts, pays and drops the target |
| Units.Unit.SkillHandle | Assets/Scripts/Units/UnitTargetHandleStrategies/TargetHandleStrategyUseSkill.cs:60-64 | the checked target is cast at successfully, the mana paid, and the target dropped |
| Selection.ControllableOf | Assets/Scripts/Units/UnitFriendly.cs:33 | a friendly unit controls itself; a squad hands out its own member set, by reference; an enemy unit controls nothing |
| Selection.UnitCalls | Assets/Scripts/InputHandling/MouseSelector.cs:189-195 | one SetSelected call per unit, in order |
| Selection.TargetCalls | Assets/Scripts/InputHandling/MouseSelector.cs:277-280 | one SetTargetManually call per unit, in order, with the same target |
| Selection.ReturnCalls | Assets/Scripts/InputHandling/SelectTargetForSkillState.cs:51-55 | one return to the pool per accessory, in order |
| Selection.MouseSelector.constructor | Assets/Scripts/InputHandling/MouseSelector.cs:55-59 | before injection there is no state and nothing is selected |
| Selection.MouseSelector.OnInjected | Assets/Scripts/InputHandling/MouseSelector.cs:55-59 | the selector enters a fresh select-and-move state and resets the cursor |
| Selection.MouseSelector.OnSelectionBlock | Assets/Scripts/InputHandling/MouseSelector.cs:75 | the block flag is stored |
| Selection.MouseSelector.SetLastSelected | Assets/Scripts/InputHandling/MouseSelector.cs:229-257 | the previous selection is deselected (a squad disposed), the new one selected, and the subscriptions follow it |
| Selection.MouseSelector.DeselectUnits | Assets/Scripts/InputHandling/MouseSelector.cs:189-195 | every unit is told it is no longer selected |
| Selection.MouseSelector.ClearSelected | Assets/Scripts/InputHandling/MouseSelector.cs:189-195 | the units the selection holds now (a squad's current members) are deselected and forgotten, and the selection and its subscriptions released |
| Selection.MouseSelector.Select | Assets/Scripts/InputHandling/MouseSelector.cs:202-223 | null throws ArgumentNull and changes nothing; otherwise the object becomes the selection, its units (for a squad, the squad's own member set) become controllable, and OnSelect is raised |
| Selection.MouseSelector.OnDieSelected | Assets/Scripts/InputHandling/MouseSelector.cs:264-271 | null throws; the selection is cleared only when the object that died is the selection |
| Selection.MouseSelector.ResetLastTarget | Assets/Scripts/InputHandling/SelectTargetForSkillState.cs:166-173 | the remembered target is un-highlighted and forgotten unless it is the owner's own target |
| Selection.MouseSelector.ReturnAccessories | Assets/Scripts/InputHandling/SelectTargetForSkillState.cs:51-55 | every accessory goes back to the pool |
| Selection.MouseSelector.DisposeSkillState | Assets/Scripts/InputHandling/SelectTargetForSkillState.cs:51-55 | the remembered target is reset and the accessories returned |
| Selection.MouseSelector.DisposeState | Assets/Scripts/InputHandling/MouseSelector.cs:138-142 | a skill state is disposed; a select-and-move state releases nothing |
| Selection.MouseSelector.ResetState | Assets/Scripts/InputHandling/MouseSelector.cs:105-113 | nothing while select-and-move is installed; otherwise the skill state is disposed, select-and-move installed, the cursor reset and the per-frame action removed |
| Selection.MouseSelector.HandleMode | Assets/Scripts/InputHandling/SelectTargetForSkillState.cs:86-117 | corrected: the mode's cursor and helpers are set up, and the per-frame highlight runs exactly for a unit-aimed skill |
| Selection.MouseSelector.HandleModeAsWritten | Assets/Scripts/InputHandling/SelectTargetForSkillState.cs:86-117 | as written: the area and self modes keep whatever per-frame action was installed |
| Selection.MouseSelector.TakeAccessory | Assets/Scripts/InputHandling/SelectTargetForSkillState.cs:86-98 | one helper taken from the pool and kept among the state's accessories |
| Selection.MouseSelector.NewSkillState | Assets/Scripts/InputHandling/SelectTargetForSkillState.cs:35-46 | a missing owner or skill throws NullReference before anything happens; otherwise a fresh state set up for its mode, whose Handle installs its highlight when it aims at a unit and otherwise keeps the installed per-frame action |
| Selection.MouseSelector.OnSelectingSkillTarget | Assets/Scripts/InputHandling/MouseSelector.cs:94-100 | a null argument throws; a cancelation returns to select-and-move with no per-frame action; a selection installs the new skill state after disposing the old one, and a state not aimed at a unit keeps the old per-frame action |
| Selection.MouseSelector.SelectSkillTargetCorrected | Assets/Scripts/InputHandling/MouseSelector.cs:94-100 | corrected: a new skill state leaves a per-frame action exactly when it aims at a unit, and then it is the installed state's |
| Selection.MouseSelector.StartSelection | Assets/Scripts/InputHandling/SelectAndMoveState.cs:57-69 | the press time is always kept; a blocked selection starts nothing; otherwise the selection starts at the cursor |
| Selection.MouseSelector.DrawSelection | Assets/Scripts/InputHandling/SelectAndMoveState.cs:134-144 | the rectangle is drawn only while a selection is started |
| Selection.MouseSelector.SelectOne | Assets/Scripts/InputHandling/SelectAndMoveState.cs:93-106 | the selection is cleared, then the object under the press point, if any, is selected |
| Selection.MouseSelector.SelectMany | Assets/Scripts/InputHandling/SelectAndMoveState.cs:111-129 | the units found are Friends units in the box and, while the tree is ordered, every Friends unit in the box is found; none selects nothing, one selects that unit, more make a new squad object of them whose members become the controllable units |
| Selection.MouseSelector.StopSelection | Assets/Scripts/InputHandling/SelectAndMoveState.cs:74-88 | a started selection becomes a single pick within the click delay and a box pick after it, which finds the Friends units in the box (all of them while the tree is ordered) and selects nothing, that unit or a squad of them; the selection stops and OnSelectionEnd is raised either way |
| Selection.MouseSelector.SetTargetForUnits | Assets/Scripts/InputHandling/MouseSelector.cs:277-280 | every selected unit gets the same target |
| Selection.MouseSelector.MakeTarget | Assets/Scripts/InputHandling/SelectAndMoveState.cs:149-167 | nothing without controllable units; otherwise the target under the cursor, or a point target at the ground point, goes to every unit the selection holds now |
| Selection.MouseSelector.CancelSelecting | Assets/Scripts/InputHandling/SelectTargetForSkillState.cs:137 | the owner cancels its aiming, and the selector resets its state when it still listens to that owner |
| Selection.MouseSelector.TryMakeTargetForSkill | Assets/Scripts/InputHandling/SelectTargetForSkillState.cs:122-132 | nothing while blocked or for a target the skill rejects; otherwise the aiming is cancelled and the target used |
| Selection.MouseSelector.HighlightTargetsUnderCursor | Assets/Scripts/InputHandling/SelectTargetForSkillState.cs:142-161 | a correct target is highlighted and remembered; a stale one is reset; the owner's own target is never un-highlighted |
| Selection.MouseSelector.Update | Assets/Scripts/InputHandling/MouseSelector.cs:64 | the installed per-frame action runs, if any |
| Selection.MouseSelector.MouseLeftDown | Assets/Scripts/InputHandling/MouseSelector.cs:164-184 | before injection throws NullReference; otherwise the installed state's press handling |
| Selection.MouseSelector.MouseLeftUp | Assets/Scripts/InputHandling/MouseSelector.cs:164-184 | before injection throws; in select-and-move the selection stops |
| Selection.MouseSelector.MouseLeftPressed | Assets/Scripts/InputHandling/MouseSelector.cs:164-184 | before injection throws; in select-and-move the rectangle is drawn |
| Selection.MouseSelector.MouseRightDown | Assets/Scripts/InputHandling/MouseSelector.cs:164-184 | before injection throws; MakeTarget in select-and-move, CancelSelecting while aiming |
| Selection.MouseSelector.ESCDown | Assets/Scripts/InputHandling/MouseSelector.cs:164-184 | before injection throws; clears the selection in select-and-move, cancels the aiming otherwise |
| Selection.StaleHighlightAfterSkillSwitch | Assets/Scripts/InputHandling/SelectTargetForSkillState.cs:86-98 | as written, switching from a unit-aimed to an area-aimed skill leaves the disposed state's highlight running |
| Selection.OrderAfterMemberDeath | Assets/Scripts/InputHandling/MouseSelector.cs:222 | once a member of the selected squad dies and the squad drops it (UnitSquad.cs:192), an order reaches only the survivors |
| Selection.DeadMemberLeavesSelection | Assets/Scripts/InputHandling/MouseSelector.cs:189-195 | select a squad of two, let one die, order and clear: only the survivor is ordered and deselected |
| Selection.NoStaleHighlightAfterSkillSwitch | Assets/Scripts/InputHandling/SelectTargetForSkillState.cs:86-98 | with the corrected Handle the same switch leaves no per-frame action |
| DI.InjectionType | Assets/Scripts/DI/DIContainer.cs:134-169 | a property is resolved by its own type, an array property by its element type |
| DI.Objects | Assets/Scripts/DI/DIContainer.cs:134-169 | injection walks an array element by element and anything else alone |
| DI.Produce | Assets/Scripts/DI/DIContainer.cs:134-169 | a factory makes one fresh object per description, numbered from the next serial, and an array exactly for an array registration |
| DI.DIContainer.constructor | Assets/Scripts/DI/DIContainer.cs:27-34 | no registrations and nothing in progress; the container already resolves IDependencyInjector to itself |
| DI.DIContainer.Register | Assets/Scripts/DI/DIContainer.cs:41-120 | registering a type twice throws ArgumentException and changes nothing; otherwise the registration is added |
| DI.DIContainer.RegisterSingleton | Assets/Scripts/DI/DIContainer.cs:41-47 | the type is registered to the scene's single component, unless already registered |
| DI.DIContainer.RegisterType | Assets/Scripts/DI/DIContainer.cs:65-70 | the type is registered to one new instance, unless already registered |
| DI.DIContainer.RegisterTypes2 | Assets/Scripts/DI/DIContainer.cs:78-109 | the type is registered to an array of one new instance of each of two implementations |
| DI.DIContainer.RegisterTypes3 | Assets/Scripts/DI/DIContainer.cs:78-109 | the same for three implementations |
| DI.DIContainer.RegisterSceneObjects | Assets/Scripts/DI/DIContainer.cs:115-120 | the type is registered to the array of the scene's components |
| DI.DIContainer.RunFactory | Assets/Scripts/DI/DIContainer.cs:210-230 | the factory's fresh objects, and the serial counter advanced by their number |
| DI.DIContainer.Resolve | Assets/Scripts/DI/DIContainer.cs:210-230 | a resolved type gives its object and a type in progress its not yet injected object, both without change; an unregistered type fails; a registered one runs its factory exactly once, and on success becomes resolved; resolved objects are never replaced |
| DI.DIContainer.StartResolving | Assets/Scripts/DI/DIContainer.cs:210-230 | the factory runs and its object is marked in progress |
| DI.DIContainer.FinishResolving | Assets/Scripts/DI/DIContainer.cs:210-230 | the injected object moves from in progress to resolved |
| DI.DIContainer.ResolveInjectorOnFreshContainer | Assets/Scripts/DI/DIContainer.cs:127 | a fresh container resolves IDependencyInjector to itself and builds nothing |
| DI.DIContainer.MakeInjections | Assets/Scripts/DI/DIContainer.cs:134-169 | on success every property of every object holds what its type resolves to |
| DI.DIContainer.InjectAll | Assets/Scripts/DI/DIContainer.cs:134-169 | on success every property of every listed object holds what its type resolves to |
| DI.DIContainer.InjectInto | Assets/Scripts/DI/DIContainer.cs:134-169 | on success each property is set to what its type resolves to, then OnInjected is called for an initiable object; a failure names one of its properties |
| DI.DIContainer.InjectProperty | Assets/Scripts/DI/DIContainer.cs:134-169 | the property's type now resolves, or the failure is rethrown naming the property and the object |
| Pooling.ObjectsPool.GetObjects | Assets/Scripts/ObjectsPool.cs:117-126 | the prefab's stack, created empty when the prefab is new |
| Pooling.ObjectsPool.GetOrCreate | Assets/Scripts/ObjectsPool.cs:56-80 | a null prefab throws ArgumentNull; otherwise the most recently returned idle instance is popped, or a new one is made and tagged with the prefab; either way it is placed and activated |
| Pooling.ObjectsPool.OnDestroyHandler | Assets/Scripts/ObjectsPool.cs:103-110 | the instance is pushed on its prefab's stack and deactivated |
| Pooling.ObjectsPool.GetInstancesCount | Assets/Scripts/ObjectsPool.cs:88-96 | a null prefab throws; otherwise the number of idle instances, 0 for a prefab never seen |
| Pooling.ReturnedIsReusedFirst | Assets/Scripts/ObjectsPool.cs:56-110 | an instance returned to the pool is the next one handed out, and the pool is as before |
| Pooling.LastInFirstOut | Assets/Scripts/ObjectsPool.cs:56-110 | two returned instances come back in reverse order |

## Left out

- Rendering, animation, audio, UI text (the `ShowableData` strings) and the Unity scene graph are not modelled. Only their effects on the modelled state are recorded in logs.
- Floating point is modelled with exact reals. Rounding, NaN and overflow of C# `(int)` casts are not modelled; the casts use `Geometry.Truncate`. `0.1f` and the other float constants are the corresponding reals.
- Physics raycasts, camera projection, the cursor position, `Time.time` and distances are given as parameters. `Task.Run` input subscription and coroutines are not modelled.
- The `Team` enum is not part of the scripts this model covers. It is modelled as `Enemies | Friends | Other(tag)`.
- Rotation and movement are recorded only as the points turned to and stepped to (`turnedTo`, `steppedTo`), not as transforms. The `ExFlatTransformations` vector maths is not modelled.
- Targets are compared by identifier, not by C# reference equality.
- Skill-changed notifications and the wiring of timers to UI events are not modelled. Effect timers that run on threads are not modelled.
- The self-targeting branch of `OnSkillClick` is not modelled: no skill in the scripts uses it.
- The skill handle calls `CastSkill` directly. The intermediate delegate is not modelled.
- Heroes ignore parameter-provider decorators (Hero.cs:96 returns the hero's own current parameters); decorators are modelled for the other units.
- `Expire` deselects inline. The deferred UI refresh is not modelled.
- Units.Unit.DoWork: its contract is weaker than the step it models. It states the liveness gate, that hit points are unchanged, that the action log only grows and when the search runs. The detailed steps are stated by `RechargeAttack`, `FindTarget`, `UseTarget` and `HandleTarget`.
- Units.Unit.UseTarget: its contract states only the null-or-missing gate and the turn. The full outcome of each decision is stated by `HandleTarget` and `ApproachTarget`.
- The throne's `Debug.Log` output is not modelled.
- `BuildingsKeeper` and `GetBuilding` are not part of this model.
- Units.Unit.AddExp: the experience is a C# `long` (Hero.cs:36, 148-159) and the model adds with unbounded integers, so the wrap-around of a sum past 2^63 - 1 is not modelled.
- Skills: what calls the parameter classes' `OnValidate` is not modelled. No script calls them, and `SkillDataGeneric.OnValidate` (SkillDataGeneric.cs:26-33) only logs. `ValidateParameters` states what the overrides do when they run.
- Units.Unit.constructor: requires every skill's data to satisfy `Skills.DataNonNegative` (no negative mana cost or cooldown at any level). The hero's invariant keeps that assumption. No code enforces it (see Findings).
- Units.Unit.UseSkillOnTarget: stated under the non-negative data assumption. With a negative cooldown the source's `StartRecharging` (SkillGeneric.cs:155-159) throws after the cast, and the mana is not paid. With a negative cost the cast gives mana back. Neither case is covered at the hero level; `Skills.Skill.UseSkill` and `Skills.Skill.StartRecharging` model the throw.
- Units.Unit.CastSkill: the same assumption and the same uncovered cases as `UseSkillOnTarget`.
- Units.Unit.SkillHandle: the same assumption; the skill strategy's cast is stated as succeeding.
- Units.Unit.SetTargetForUsingSkill: requires the skill's data to satisfy the same assumption, because the hero's invariant keeps the use-skill strategy it installs.
- Squads only handle units. Handlers for other `IDying` objects are not modelled.
- The shop's spawning of bought units, its coroutines and its path for missing settings are not modelled. Only gold and the upgrade buttons are.
- Injected services are assumed present once injection ran. A missing last-selected unit is treated as present.
- DI: .NET reflection is replaced by an explicit description of each type (`ObjectSpec`): the properties it marks with `[Injection]` (DIContainer.cs:141-146), and whether it implements `IInitiableOnInjecting`, whose `OnInjected` callback runs after the injections (DIContainer.cs:167). Casts are not modelled. Objects found in the scene get fresh serial numbers.
- DI: `FindOrCreateSingleton` does not destroy extra scene instances or call `DontDestroyOnLoad`.
- Pooling: rotation and parenting of pooled instances are not modelled.
- Pooling: the `NullReferenceException` at the end of `GetOrCreate` and the `ArgumentException` in `OnDestroyHandler` are not modelled. Neither can be reached from the modelled calls.
- Pooling: the position marker's use of the pool is only logged.
- KDTrees.KDTree.FindClosest: which of several equally near items is returned is left open. The source keeps the first one its breadth-first walk reaches, since only a strictly smaller distance replaces the best.
- KDTrees: range and closest-point searches are complete only while the tree is ordered under the current positions. Units move between rebuilds, so completeness is stated under `Ordered`.
- Behaviour the model keeps as written, without claiming a defect:
  - a disposed selection state's accessories stay taken;
  - a failed DI resolution leaves the type marked as being resolved;
  - returning the same instance to the pool twice pushes it twice.

## Findings

| source | as written | input that shows it | evidently intended | confidence | as-written member | corrected member |
|---|---|---|---|---|---|---|
| Assets/Scripts/Skills/SkillParametersIceBolt.cs:51-60 | both parameter classes override `OnValidate` without calling `base.OnValidate()` (also SkillParametersMeteor.cs:48-55), so the base class's clamps of the mana cost and cooldown (SkillParameters.cs:39-43) never run | an ice bolt or meteor record with mana cost -5 and cooldown -1 keeps both values | every bounded field, the mana cost and cooldown included, is at least its minimum after validation | not executed | Skills.ValidateParameters, Skills.NegativeCostAndCooldownSurvive | Skills.ValidateBase, Skills.ValidateParametersCorrected |
| Assets/Scripts/Units/UnitSquad.cs:166-169 | `SetSelected` passes `true` to every member whatever its argument, so deselecting a squad tells its members they are selected | a squad with one member, SetSelected(false) | each member is told the argument | not executed | Squads.UnitSquad.SetSelected, Squads.DeselectingSquadSelects | Squads.UnitSquad.SetSelectedCorrected |
| Assets/Scripts/DataStructures/KDTree.cs:431-440 | `GetByCircleArea` builds the box from `center - radius` to `center + radius`. For a negative radius the box is inverted, so the search skips items that the distance test accepts. | items at (0,0,0) and (-0.5,0,0), centre (0,0,0), radius -1: the item at (-0.5,0,0) is within distance 1 but is not returned | the box spans the absolute value of the radius | not executed | KDTrees.KDTree.GetByCircleArea, Keepers.UnitsKeeper.GetUnitsByCircleArea, KDTrees.NegativeRadiusMissesItem | KDTrees.KDTree.GetByCircleAreaCorrected |
| Assets/Scripts/Buildings/Shop.cs:115-129 | the guard offers no button once `level == LevelsCount`, so the last upgrade in the table is never offered | any shop with at least one level, at level `LevelsCount` | every upgrade in the table can be bought | not executed | Economy.ButtonsAsWritten, Economy.Shop.GetButtons, Economy.LastUpgradeNeverOffered | Economy.Buttons, Economy.EveryUpgradeOffered, Economy.RefreshExactlyWhenButtonFlips |
| Assets/Scripts/Units/Hero.cs:171-176 | the index is post-incremented before it is compared with the activated skill. Button `i` flashes when `activated == i + 1`. | mana costs [10, 20], mana 100, activated skill 0: no button flashes | the activated skill's own button flashes | not executed | Combat.ButtonsAsWritten, Units.Unit.GetButtons, Combat.ActivatedButtonNotFlashingAsWritten, Combat.FirstSkillActivatedFlashesNothing | Combat.Buttons, Combat.ButtonsFlashActivated, Units.Unit.SingleButtonMatchesList |
| Assets/Scripts/InputHandling/SelectTargetForSkillState.cs:86-98 | `Handle` for area and self targeting does not clear the per-frame update action. Switching straight from a unit-aimed skill to an area-aimed one leaves the disposed state's highlight running every frame. | select a unit-aimed skill, then an area-aimed skill without cancelling | only the installed state's action (or none) runs each frame | not executed | Selection.MouseSelector.HandleModeAsWritten, Selection.MouseSelector.OnSelectingSkillTarget, Selection.StaleHighlightAfterSkillSwitch | Selection.MouseSelector.HandleMode, Selection.MouseSelector.SelectSkillTargetCorrected, Selection.NoStaleHighlightAfterSkillSwitch |
