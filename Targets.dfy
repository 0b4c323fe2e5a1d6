/**
 * Teams, the opponent mapping of TargetsProvider and the kinds of target a
 * unit can hold (ITarget and its implementations).
 */
module Targets {
  import opened Wrappers
  import opened Geometry

  /**
   * The Team enum. Its declaration is not part of this model; besides the
   * two teams the game uses, `Other` stands for any further member, so that
   * the keeper's "no tree for this team" branches stay reachable.
   */
  datatype Team = Enemies | Friends | Other(tag: nat)

  /** GetOpponentsTeam: Enemies face Friends, every other team faces Enemies. */
  function Opponent(team: Team): (o: Team)
    ensures o == Friends <==> team == Enemies
    ensures o != team
    ensures o == Enemies || o == Friends
  {
    if team == Enemies then Friends else Enemies
  }

  /** Applied twice to either of the two playing teams, the opponent mapping gives the team back. */
  lemma OpponentInvolution(team: Team)
    requires team == Enemies || team == Friends
    ensures Opponent(Opponent(team)) == team
  {
  }

  /** A team outside the two playing ones is not recovered: its opponent's opponent is Friends. */
  lemma OpponentOfOtherTeam(tag: nat)
    ensures Opponent(Other(tag)) == Enemies && Opponent(Opponent(Other(tag))) == Friends
  {
  }

  type UnitId = nat

  /**
   * ITarget: a unit (friendly, enemy or hero), one of the two singleton
   * buildings, a point on the ground (PointTarget) or a circle on the ground
   * (AreaTarget). Units and buildings are read live through a TargetState.
   */
  datatype Target =
    | UnitTarget(id: UnitId)
    | ThroneTarget
    | FountainTarget
    | PointTarget(point: Vec3)
    | AreaTarget(center: Vec3, radius: real)

  /** ITargetAttackable: units and the throne; the fountain, points and areas are plain targets. */
  predicate IsAttackable(t: Target) {
    t.UnitTarget? || t.ThroneTarget?
  }

  /**
   * What other objects see of a target at one moment: whether it is
   * destroyed or deactivated (IsNullOrMissing), its position and, for an
   * ITargetAttackable, whether it is alive and which attacking team its
   * CanBeAttackedBy accepts.
   */
  datatype TargetState = TargetState(missing: bool, position: Vec3, alive: bool, attackableBy: Team)

  /** The attacking team each attackable target accepts (UnitFriendly, UnitEnemy and Throne's CanBeAttackedBy). */
  datatype Side = FriendlySide | EnemySide | ThroneSide

  function AttackableBy(side: Side): (t: Team)
    ensures side == EnemySide <==> t == Friends
  {
    match side
    case FriendlySide => Enemies
    case EnemySide => Friends
    case ThroneSide => Enemies
  }

  /** CanBeAttackedBy of a target on `side` for an attacker of `attacker`. */
  predicate CanBeAttackedBy(side: Side, attacker: Team) {
    attacker == AttackableBy(side)
  }

  /** Friendly units and the throne accept only Enemies as attackers, enemy units only Friends. */
  lemma OnlyOpponentsAttack(side: Side, attacker: Team)
    requires CanBeAttackedBy(side, attacker)
    ensures side == EnemySide ==> attacker == Friends
    ensures side != EnemySide ==> attacker == Enemies
    ensures attacker == Opponent(if side == EnemySide then Enemies else Friends)
  {
  }

  /** A point or area target is a plain object: never missing, and placed where it was made. */
  function GroundState(t: Target): (s: TargetState)
    requires t.PointTarget? || t.AreaTarget?
    ensures !s.missing && !IsAttackable(t)
    ensures s.position == (if t.PointTarget? then t.point else t.center)
  {
    TargetState(false, if t.PointTarget? then t.point else t.center, false, Enemies)
  }

  /** The AreaTarget constructor: a negative radius throws ArgumentException; zero is allowed. */
  function NewAreaTarget(point: Vec3, radius: real): (r: Result<Target>)
    ensures r.Err? <==> radius < 0.0
    ensures r.Err? ==> r.error == Argument
    ensures r.Ok? ==> r.value.AreaTarget? && r.value.center == point && r.value.radius == radius
  {
    if radius < 0.0 then Err(Argument) else Ok(AreaTarget(point, radius))
  }

  /** Every accepted area target keeps a radius of at least zero, and a zero radius is accepted. */
  lemma AreaTargetRadiusNonNegative(point: Vec3, radius: real)
    ensures NewAreaTarget(point, radius).Ok? ==> NewAreaTarget(point, radius).value.radius >= 0.0
    ensures NewAreaTarget(point, 0.0).Ok?
  {
  }
}
