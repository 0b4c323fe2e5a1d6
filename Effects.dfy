/**
 * EffectsEqualityComparer: effects compared by their hash codes, where an
 * Effect's hash is the hash of its effect-data type.
 */
module Effects {
  import opened Wrappers

  /** An effect, seen through the hash of its effect-data type. */
  datatype Effect = Effect(dataTypeHash: int)

  /** Effect.GetHashCode, and the comparer's GetHashCode, which forwards to it. */
  function HashCode(e: Effect): int {
    e.dataTypeHash
  }

  /** Equals over nullable effects. */
  predicate EffectsEqual(first: Option<Effect>, second: Option<Effect>) {
    if first.None? && second.None? then true
    else if first.None? || second.None? then false
    else HashCode(first.value) == HashCode(second.value)
  }

  /** Two nulls are equal, and a null never equals an effect. */
  lemma NullCases(e: Effect)
    ensures EffectsEqual(None, None)
    ensures !EffectsEqual(None, Some(e)) && !EffectsEqual(Some(e), None)
  {
  }

  /** Two effects are equal exactly when their effect data have the same type hash. */
  lemma EqualIffSameDataType(a: Effect, b: Effect)
    ensures EffectsEqual(Some(a), Some(b)) <==> a.dataTypeHash == b.dataTypeHash
  {
  }

  /** The comparer is an equivalence relation on nullable effects. */
  lemma Equivalence(a: Option<Effect>, b: Option<Effect>, c: Option<Effect>)
    ensures EffectsEqual(a, a)
    ensures EffectsEqual(a, b) == EffectsEqual(b, a)
    ensures EffectsEqual(a, b) && EffectsEqual(b, c) ==> EffectsEqual(a, c)
  {
  }

  /** Effects the comparer calls equal get equal hash codes, as a hash-set comparer must. */
  lemma EqualHashesAgree(a: Effect, b: Effect)
    requires EffectsEqual(Some(a), Some(b))
    ensures HashCode(a) == HashCode(b)
  {
  }
}
