/** ChangedHealthArgs, the payload of every health-change event, and the fullness ratio put in it. */
module Health {
  import opened Wrappers

  /** HealthBar.FULLNESS_MIN and FULLNESS_MAX. */
  const FullnessMin: real := 0.0
  const FullnessMax: real := 1.0

  datatype ChangedHealthArgs = ChangedHealthArgs(currentHealth: int, fullness: real, description: string)

  /** The validating constructor: a fullness outside [0, 1] throws ArgumentOutOfRange; both bounds are accepted. */
  function NewChangedHealthArgs(currentHealth: int, fullness: real, description: string): (r: Result<ChangedHealthArgs>)
    ensures r.Ok? <==> FullnessMin <= fullness <= FullnessMax
    ensures r.Err? ==> r.error == ArgumentOutOfRange
    ensures r.Ok? ==> r.value.currentHealth == currentHealth && r.value.fullness == fullness
                      && r.value.description == description
  {
    if fullness < FullnessMin || fullness > FullnessMax then Err(ArgumentOutOfRange)
    else Ok(ChangedHealthArgs(currentHealth, fullness, description))
  }

  /**
   * The fullness a health event carries: health / max while health is
   * positive (and, for a squad, the summed maximum is not zero), 0 otherwise.
   */
  function Fullness(health: int, max: int): (f: real)
    ensures health <= 0 || max == 0 ==> f == 0.0
    ensures 0 < health && 0 < max ==> f > 0.0
    ensures 0 < health <= max ==> f <= 1.0
    ensures 0 < health == max ==> f == 1.0
  {
    if health > 0 && max != 0 then health as real / max as real else 0.0
  }

  /** A health at most its positive maximum always yields an event the constructor accepts. */
  lemma FullnessAccepted(health: int, max: int, description: string)
    requires health <= max && 0 < max
    ensures NewChangedHealthArgs(health, Fullness(health, max), description).Ok?
  {
  }

  lemma PositiveFactor(a: real, b: real)
    requires b > 0.0 && a * b > 0.0
    ensures a > 0.0
  {
  }

  /** A health above its maximum yields a fullness above 1, which the constructor rejects. */
  lemma OverfullRejected(health: int, max: int, description: string)
    requires 0 < max < health
    ensures NewChangedHealthArgs(health, Fullness(health, max), description) == Err(ArgumentOutOfRange)
  {
    var h, m := health as real, max as real;
    var f := h / m;
    assert f * m == h;
    assert (f - 1.0) * m == h - m;
    PositiveFactor(f - 1.0, m);
  }
}
