/**
 * UnitsKeeper, the registry of every unit in the game: one k-d tree per
 * team, filled as units are created and emptied of them as they die, and
 * TargetsProvider, which answers a unit's questions about its opponents
 * from those trees. Units are named by id and `pos` gives each unit's
 * current position.
 */
module Keepers {
  import opened Wrappers
  import opened Geometry
  import opened Targets
  import opened PointCheckers
  import opened KDTreeSpec
  import opened KDTreeProofs
  import opened KDTrees
  import opened Delegates

  /** DEFAULT_KDTREES_UPDATE_RATE: the trees are rebuilt at most twice a second. */
  const TreesUpdateRate: real := 2.0

  /** The predicate RemoveAll is given on a death: the entry is that unit. */
  function Is(u: UnitId): UnitId -> bool {
    x => x == u
  }

  class UnitsKeeper {
    const enemies: KDTree<UnitId>
    const friends: KDTree<UnitId>
    /** The units whose OnDie the keeper listens to, one entry per subscription. */
    var dieSubs: seq<UnitId>

    ghost predicate Valid()
      reads this, enemies, friends
    {
      enemies != friends && enemies.Valid() && friends.Valid()
    }

    /** GetUnitsOfTeam: the dictionary holds a tree for Enemies and one for Friends, and nothing else. */
    function TreeOf(team: Team): (t: KDTree?<UnitId>)
      ensures team == Enemies ==> t == enemies
      ensures team == Friends ==> t == friends
      ensures team.Other? <==> t == null
    {
      match team
      case Enemies => enemies
      case Friends => friends
      case Other(_) => null
    }

    /** The keeper starts with an empty tree for each of the two teams. */
    constructor ()
      ensures Valid() && fresh(enemies) && fresh(friends)
      ensures enemies.Items() == [] && friends.Items() == [] && dieSubs == []
    {
      enemies := new KDTree<UnitId>();
      friends := new KDTree<UnitId>();
      dieSubs := [];
    }

    /**
     * OnUnitCreatedHandler: a null unit throws; otherwise the unit joins
     * the tree of its own team, if there is one, and the keeper subscribes
     * to its death.
     */
    method OnUnitCreated(unit: Option<UnitId>, team: Team, pos: UnitId -> Vec3) returns (r: Outcome)
      requires Valid()
      modifies this`dieSubs, enemies, friends
      ensures Valid()
      ensures r.Fail? <==> unit.None?
      ensures unit.None? ==> r.error == ArgumentNull && unchanged(this, enemies, friends)
      ensures unit.Some? ==> dieSubs == old(dieSubs) + [unit.value]
      ensures unit.Some? && team == Enemies ==>
                enemies.Items() == old(enemies.Items()) + [unit.value] && unchanged(friends)
      ensures unit.Some? && team == Friends ==>
                friends.Items() == old(friends.Items()) + [unit.value] && unchanged(enemies)
      ensures team.Other? ==> unchanged(enemies, friends)
    {
      if unit.None? {
        return Fail(ArgumentNull);
      }
      var tree := TreeOf(team);
      if tree != null {
        tree.Add(unit.value, pos);
      }
      dieSubs := dieSubs + [unit.value];
      r := Done;
    }

    /**
     * OnUnitDieHandler: a null argument throws; otherwise the keeper
     * unsubscribes from the death and removes every entry of that unit from
     * the tree of its team; the other tree is left alone.
     */
    method OnUnitDie(died: Option<UnitId>, team: Team, pos: UnitId -> Vec3) returns (r: Outcome)
      requires Valid()
      modifies this`dieSubs, enemies, friends
      ensures Valid()
      ensures r.Fail? <==> died.None?
      ensures died.None? ==> r.error == ArgumentNull && unchanged(this, enemies, friends)
      ensures died.Some? ==> dieSubs == RemoveLast(old(dieSubs), died.value)
      ensures died.Some? && team == Enemies ==>
                enemies.Items() == Filter(old(enemies.Items()), Not(Is(died.value))) && unchanged(friends)
      ensures died.Some? && team == Friends ==>
                friends.Items() == Filter(old(friends.Items()), Not(Is(died.value))) && unchanged(enemies)
      ensures team.Other? ==> unchanged(enemies, friends)
    {
      if died.None? {
        return Fail(ArgumentNull);
      }
      dieSubs := RemoveLast(dieSubs, died.value);
      var tree := TreeOf(team);
      if tree != null {
        tree.RemoveAll(Is(died.value), pos);
      }
      r := Done;
    }

    /** GetUnitsByRegion: the team's units in the rectangle [min, max]; none for a team without a tree. */
    method GetUnitsByRegion(team: Team, min: Vec3, max: Vec3, pos: UnitId -> Vec3) returns (units: seq<UnitId>)
      requires Valid()
      ensures team.Other? ==> units == []
      ensures forall u :: u in units ==> u in TreeOf(team).Items() && IsInArea(InRectangle(min, max), pos(u))
      ensures !team.Other? && Ordered(TreeOf(team).nodes, pos) ==>
                forall u :: u in TreeOf(team).Items() && IsInArea(InRectangle(min, max), pos(u)) ==> u in units
    {
      var tree := TreeOf(team);
      if tree == null {
        return [];
      }
      ghost var hits;
      units, hits := tree.GetByRegion(min, max, pos);
      RegionItems(tree, units, hits, InRectangle(min, max), pos, true);
    }

    /**
     * GetUnitsByCircleArea: the team's units in the disc; none for a team
     * without a tree. The search box runs from point - radius to
     * point + radius, so only a non-negative radius is sure to find every
     * unit in the disc.
     */
    method GetUnitsByCircleArea(team: Team, point: Vec3, radius: real, pos: UnitId -> Vec3) returns (units: seq<UnitId>)
      requires Valid()
      ensures team.Other? ==> units == []
      ensures forall u :: u in units ==> u in TreeOf(team).Items() && IsInArea(InCircle(point, radius), pos(u))
      ensures !team.Other? && radius >= 0.0 && Ordered(TreeOf(team).nodes, pos) ==>
                forall u :: u in TreeOf(team).Items() && IsInArea(InCircle(point, radius), pos(u)) ==> u in units
    {
      var tree := TreeOf(team);
      if tree == null {
        return [];
      }
      ghost var hits;
      units, hits := tree.GetByCircleArea(point, radius, pos);
      RegionItems(tree, units, hits, InCircle(point, radius), pos, radius >= 0.0);
    }

    /** FindClosestUnit: the team's unit nearest to `position` on the (x, z) plane; null for an empty tree or no tree. */
    method FindClosestUnit(team: Team, position: Vec3, pos: UnitId -> Vec3) returns (r: Option<UnitId>)
      requires Valid()
      ensures team.Other? || TreeOf(team).Items() == [] ==> r.None?
      ensures r.Some? ==> r.value in TreeOf(team).Items()
      ensures r.Some? && Ordered(TreeOf(team).nodes, pos) ==>
                forall u :: u in TreeOf(team).Items() ==> SqDistance(position, pos(r.value)) <= SqDistance(position, pos(u))
    {
      var tree := TreeOf(team);
      if tree == null {
        return None;
      }
      r := tree.FindClosest(position, pos);
    }

    /** Update: Update(2) on both trees; each rebuilds when half a second has passed since its last rebuild. */
    method Update(now: real, pos: UnitId -> Vec3)
      requires Valid()
      modifies enemies, friends
      ensures Valid()
      ensures now - old(enemies.lastUpdate) < 1.0 / TreesUpdateRate ==>
                enemies.nodes == old(enemies.nodes) && enemies.lastUpdate == old(enemies.lastUpdate)
      ensures now - old(enemies.lastUpdate) >= 1.0 / TreesUpdateRate ==>
                enemies.nodes == Build(old(enemies.Items()), pos) && enemies.lastUpdate == now
      ensures now - old(friends.lastUpdate) < 1.0 / TreesUpdateRate ==>
                friends.nodes == old(friends.nodes) && friends.lastUpdate == old(friends.lastUpdate)
      ensures now - old(friends.lastUpdate) >= 1.0 / TreesUpdateRate ==>
                friends.nodes == Build(old(friends.Items()), pos) && friends.lastUpdate == now
    {
      var r1 := enemies.Update(TreesUpdateRate, now, pos);
      var r2 := friends.Update(TreesUpdateRate, now, pos);
    }
  }

  /**
   * A range search's output, read back as items: sound always, and
   * complete when nothing has moved and the search is `complete` (its box
   * covers the checker's area).
   */
  lemma RegionItems(tree: KDTree<UnitId>, units: seq<UnitId>, hits: seq<int>, checker: PointChecker,
                    pos: UnitId -> Vec3, complete: bool)
    requires |units| == |hits|
    requires forall k :: 0 <= k < |hits| ==>
               0 <= hits[k] < |tree.nodes| && units[k] == tree.nodes[hits[k]].value && IsInArea(checker, pos(units[k]))
    requires complete && Ordered(tree.nodes, pos) ==>
               forall j :: 0 <= j < |tree.nodes| && IsInArea(checker, pos(tree.nodes[j].value)) ==> j in hits
    ensures forall u :: u in units ==> u in tree.Items() && IsInArea(checker, pos(u))
    ensures complete && Ordered(tree.nodes, pos) ==>
              forall u :: u in tree.Items() && IsInArea(checker, pos(u)) ==> u in units
  {
    forall u | u in units
      ensures u in tree.Items()
    {
      var k :| 0 <= k < |units| && units[k] == u;
      assert tree.Items()[hits[k]] == u;
    }
    if complete && Ordered(tree.nodes, pos) {
      forall u | u in tree.Items() && IsInArea(checker, pos(u))
        ensures u in units
      {
        var j :| 0 <= j < |tree.Items()| && tree.Items()[j] == u;
        var k :| 0 <= k < |hits| && hits[k] == j;
        assert units[k] == u;
      }
    }
  }

  /** A death removes exactly that unit's entries from its team's tree. */
  lemma DeathRemovesExactlyThatUnit(before: seq<UnitId>, u: UnitId)
    ensures forall v :: v in Filter(before, Not(Is(u))) <==> v in before && v != u
  {
    FilterMembers(before, Not(Is(u)));
    forall v | v in Filter(before, Not(Is(u)))
      ensures v in before && v != u
    {
      var i :| 0 <= i < |Filter(before, Not(Is(u)))| && Filter(before, Not(Is(u)))[i] == v;
    }
    forall v | v in before && v != u
      ensures v in Filter(before, Not(Is(u)))
    {
      var i :| 0 <= i < |before| && before[i] == v;
    }
  }

  /**
   * TargetsProvider: the opponents of a team member. `keeper` is the
   * injected UnitsKeeper.
   */
  class TargetsProvider {
    const keeper: UnitsKeeper

    constructor (keeper: UnitsKeeper)
      ensures this.keeper == keeper
    {
      this.keeper := keeper;
    }

    /**
     * GetUnitTargetFor: a null or missing member throws; otherwise the
     * opposing team's unit nearest to the member, or null if there is none.
     * `member` is the member's team and position.
     */
    method GetUnitTargetFor(member: Option<(Team, Vec3)>, pos: UnitId -> Vec3) returns (r: Result<Option<UnitId>>)
      requires keeper.Valid()
      ensures r.Err? <==> member.None?
      ensures r.Err? ==> r.error == NullReference
      ensures r.Ok? && r.value.Some? ==> r.value.value in keeper.TreeOf(Opponent(member.value.0)).Items()
      ensures r.Ok? && keeper.TreeOf(Opponent(member.value.0)).Items() == [] ==> r.value.None?
      ensures r.Ok? && r.value.Some? && Ordered(keeper.TreeOf(Opponent(member.value.0)).nodes, pos) ==>
                forall u :: u in keeper.TreeOf(Opponent(member.value.0)).Items() ==>
                  SqDistance(member.value.1, pos(r.value.value)) <= SqDistance(member.value.1, pos(u))
    {
      if member.None? {
        return Err(NullReference);
      }
      var (team, position) := member.value;
      var closest := keeper.FindClosestUnit(Opponent(team), position, pos);
      r := Ok(closest);
    }

    /**
     * GetUnitTargetsAtAreaFor: the opposing team's units inside the area's
     * circle; every area NewAreaTarget accepts has a non-negative radius, so
     * the search finds all of them.
     */
    method GetUnitTargetsAtAreaFor(team: Team, area: Target, pos: UnitId -> Vec3) returns (units: seq<UnitId>)
      requires keeper.Valid() && area.AreaTarget?
      ensures forall u :: u in units ==>
                u in keeper.TreeOf(Opponent(team)).Items() && IsInArea(InCircle(area.center, area.radius), pos(u))
      ensures area.radius >= 0.0 && Ordered(keeper.TreeOf(Opponent(team)).nodes, pos) ==>
                forall u :: u in keeper.TreeOf(Opponent(team)).Items() && IsInArea(InCircle(area.center, area.radius), pos(u))
                  ==> u in units
    {
      units := keeper.GetUnitsByCircleArea(Opponent(team), area.center, area.radius, pos);
    }
  }
}
